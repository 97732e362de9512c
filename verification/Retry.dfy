/** Sending a manifest: one attempt budget threaded through the token request and the manifest request,
    each with its own retry loop (permission_manifest.go). Durations are in nanoseconds. */
module Retry {
  import opened Text
  import opened Manifest
  import opened ManifestResult

  const PERMISSIONS_SYNC_SCOPE := "permissions:sync"

  /** What one HTTP request comes back with. */
  datatype Reply =
    | Refused(error: string)                                 // http.Client.Do failed
    | Unreadable(status: int, error: string)                 // reading the body failed
    | Oversized(status: int)                                 // more than 1 MiB
    | Answered(status: int, retryAfter: string, body: string)

  datatype Target = TokenEndpoint | ManifestEndpoint

  datatype Event =
    | Attempt(target: Target)
    | Sleep(shift: nat, duration: nat)  // the exponent of the backoff in force, and the time waited
    | Cancelled                         // the context ended the sleep

  /** The record of a client's requests and sleeps, latest last. */
  datatype Log = Start | Then(before: Log, event: Event)

  datatype Response = Response(status: int, retryAfter: string, body: string)

  datatype Failure =
    | CommandTimeout
    | SizeExceeded(status: int)
    | TransportError(message: string)
    | ContextError
    | TokenRefused(status: int)
    | InvalidTokenResponse(status: int)
    | ManifestRefused(status: int)
    | InvalidManifestResponse

  /** The outside world: an arbitrary script of replies, cancellations and passing time, and a record of
      what the client did. */
  class Network {
    const replies: nat -> Reply
    const cancels: nat -> bool
    const elapsed: nat -> nat
    var made: nat
    var now: int
    var log: Log

    constructor (replies: nat -> Reply, cancels: nat -> bool, elapsed: nat -> nat, now: int)
      ensures this.replies == replies && this.cancels == cancels && this.elapsed == elapsed
      ensures made == 0 && this.now == now && log == Start
    {
      this.replies, this.cancels, this.elapsed := replies, cancels, elapsed;
      made, this.now, log := 0, now, Start;
    }

    method Do(target: Target) returns (reply: Reply)
      modifies this
      ensures reply == replies(old(made)) && made == old(made) + 1 && now >= old(now)
      ensures log == Then(old(log), Attempt(target))
    {
      reply := replies(made);
      now := now + elapsed(made);
      made, log := made + 1, Then(log, Attempt(target));
    }

    /** Time between commands. */
    method Pass(elapsed: nat)
      modifies this`now
      ensures now == old(now) + elapsed
    {
      now := now + elapsed;
    }

    /** waitContext. */
    method Wait(shift: nat, duration: nat) returns (ok: bool)
      modifies this
      ensures made == old(made) && now >= old(now)
      ensures log == var slept := Then(old(log), Sleep(shift, duration)); if ok then slept else Then(slept, Cancelled)
    {
      ok := !cancels(made);
      now := now + elapsed(made);
      log := Then(log, Sleep(shift, duration));
      if !ok {
        log := Then(log, Cancelled);
      }
    }
  }

  /** permissionManifestBudget. */
  class Budget {
    var attempts: nat

    constructor (attempts: nat)
      ensures this.attempts == attempts
    {
      this.attempts := attempts;
    }

    method Consume() returns (ok: bool)
      modifies this
      ensures ok <==> old(attempts) > 0
      ensures attempts == if ok then old(attempts) - 1 else 0
    {
      if attempts == 0 {
        return false;
      }
      attempts := attempts - 1;
      return true;
    }
  }

  // ----- Delays

  /** strconv.Atoi on a string short enough not to overflow; 0 with an error otherwise. */
  function Atoi(s: string): (r: (int, bool)) {
    var digits := if s != [] && (s[0] == '-' || s[0] == '+') then s[1..] else s;
    if digits == [] || !AllDigits(digits) then (0, false)
    else
      var value: int := DecimalValue(digits);
      (if s[0] == '-' then -value else value, true)
  }

  function ParseRetryAfter(value: string): (int, bool) {
    if value == "" || |value| > 5 || value[0] == '0' then (0, false)
    else
      var (seconds, ok) := Atoi(value);
      (seconds, ok && 0 < seconds <= 86400)
  }

  function MinDuration(a: nat, b: nat): nat {
    if a < b then a else b
  }

  function Seconds(n: nat): nat {
    n * 1_000_000_000
  }

  /** 250 ms, doubled `shift` times. */
  function Backoff(shift: nat): nat {
    Pow2(shift) * 250_000_000
  }

  function Pow2(n: nat): nat {
    if n == 0 then 1 else 2 * Pow2(n - 1)
  }

  predicate RetryableStatus(status: int) {
    status == 408 || status == 429 || status == 502 || status == 503 || status == 504
  }

  predicate Retryable(reply: Reply) {
    Breaks(reply) || (reply.Answered? && RetryableStatus(reply.status))
  }

  /** How long to sleep before trying again; an unreadable body is retried at once. */
  function DelayAfter(reply: Reply, attempt: nat, maxDelay: nat): (r: Option<nat>)
    ensures r.Some? ==> r.value <= maxDelay
    ensures r.None? <==> reply.Unreadable? || reply.Oversized?
  {
    match reply
    case Refused(_) => Some(MinDuration(Backoff(attempt), maxDelay))
    case Answered(_, header, _) =>
      var (seconds, ok) := ParseRetryAfter(header);
      Some(MinDuration(if ok && seconds >= 0 then Seconds(seconds) else Backoff(attempt), maxDelay))
    case _ => None
  }

  /** The delays of the loop whose first reply is number `first`. */
  ghost function Delays(replies: nat -> Reply, first: nat, maxDelay: nat): nat -> Option<nat> {
    k => DelayAfter(replies(first + k), k, maxDelay)
  }

  lemma DelaysAt(replies: nat -> Reply, first: nat, maxDelay: nat, k: nat)
    ensures Delays(replies, first, maxDelay)(k) == DelayAfter(replies(first + k), k, maxDelay)
  {
  }

  // ----- One retry loop

  function Pause(log: Log, attempt: nat, delay: Option<nat>): Log {
    if delay.Some? then Then(log, Sleep(attempt, delay.value)) else log
  }

  /** The log after `m` attempts of one loop, with the sleep after each. */
  ghost function Rounds(log: Log, target: Target, m: nat, delay: nat -> Option<nat>): Log
    decreases m, 1
  {
    if m == 0 then log else Pause(Tried(log, target, m, delay), m - 1, delay(m - 1))
  }

  /** The log after `m` attempts, the last of which has not slept yet. */
  ghost function Tried(log: Log, target: Target, m: nat, delay: nat -> Option<nat>): Log
    requires m > 0
    decreases m, 0
  {
    Then(Rounds(log, target, m - 1, delay), Attempt(target))
  }

  /** What a loop of `m` attempts that ends in `r` makes of the log. */
  ghost function Record(log: Log, target: Target, m: nat, delay: nat -> Option<nat>, r: Result<Response,
      Failure>): Log {
    if r == Err(CommandTimeout) then Rounds(log, target, m, delay)
    else if r == Err(ContextError) then Then(Rounds(log, target, m, delay), Cancelled)
    else if m == 0 then log
    else Tried(log, target, m, delay)
  }

  datatype Turn = Again | GiveUp | Done(result: Result<Response, Failure>)

  /** What one turn adds to the log once its reply is in. */
  function Settled(log: Log, attempt: nat, delay: Option<nat>, turn: Turn): Log {
    match turn
    case Again => Pause(log, attempt, delay)
    case GiveUp => log
    case Done(result) => if result == Err(ContextError) then Then(Pause(log, attempt, delay), Cancelled) else log
  }

  /** The request got no answer that could be read. */
  predicate Breaks(reply: Reply) {
    reply.Refused? || reply.Unreadable?
  }

  /** Why a loop may end in `r` at its `m`-th reply, with `left` attempts in the budget. */
  predicate EndsBy(reply: Reply, m: nat, maxRetries: nat, left: nat, r: Result<Response, Failure>) {
    match r
    case Ok(response) =>
      && reply == Answered(response.status, response.retryAfter, response.body)
      && (RetryableStatus(response.status) ==> m > maxRetries || left == 0)
    case Err(CommandTimeout) => reply.Unreadable? && left == 0 && m <= maxRetries
    case Err(SizeExceeded(status)) => reply == Oversized(status)
    case Err(TransportError(message)) =>
      && Breaks(reply) && reply.error == message
      && (m > maxRetries || (reply.Refused? && left == 0))
    case Err(ContextError) => Retryable(reply) && !reply.Unreadable? && left > 0 && m <= maxRetries
    case _ => false
  }

  /** A loop made `m` attempts: every reply but the last called for another attempt, and the last one
      explains how the loop ends. Without an attempt, the budget was empty to begin with. */
  ghost predicate Explained(replies: nat -> Reply, first: nat, m: nat, maxRetries: nat, left: nat,
      r: Result<Response, Failure>) {
    && m <= maxRetries + 1
    && (forall n | first <= n < first + m - 1 :: Retryable(replies(n)))
    && if m == 0 then r == Err(CommandTimeout) && left == 0
       else EndsBy(replies(first + m - 1), m, maxRetries, left, r)
  }

  /** Where a loop stands after `m` attempts: each reply called for another one, and the log says so. */
  ghost predicate Underway(replies: nat -> Reply, first: nat, m: nat, left: nat, maxDelay: nat,
      target: Target, before: Log, log: Log) {
    && (forall n | first <= n < first + m :: Retryable(replies(n)))
    && (m > 0 && left == 0 ==> replies(first + m - 1).Unreadable?)
    && log == Rounds(before, target, m, Delays(replies, first, maxDelay))
  }

  /** One more turn of a loop that has made `m` attempts. */
  lemma TurnTaken(replies: nat -> Reply, first: nat, m: nat, maxRetries: nat, left: nat, maxDelay: nat,
      target: Target, before: Log, log: Log, turn: Turn, r: Result<Response, Failure>)
    requires Underway(replies, first, m, left + 1, maxDelay, target, before, log) && m <= maxRetries
    ensures var after := Settled(Then(log, Attempt(target)), m, DelayAfter(replies(first + m), m, maxDelay), turn);
            && (turn.Again? && Retryable(replies(first + m)) && (left == 0 ==> replies(first + m).Unreadable?) ==>
                  Underway(replies, first, m + 1, left, maxDelay, target, before, after))
            && (!turn.Again? && EndsBy(replies(first + m), m + 1, maxRetries, left, r) && r != Err(CommandTimeout)
                  && (turn == Done(r) || (turn.GiveUp? && r != Err(ContextError))) ==>
                  && Explained(replies, first, m + 1, maxRetries, left, r)
                  && after == Record(before, target, m + 1, Delays(replies, first, maxDelay), r))
  {
    DelaysAt(replies, first, maxDelay, m);
    var delay := Delays(replies, first, maxDelay);
    assert Rounds(before, target, m + 1, delay) == Pause(Tried(before, target, m + 1, delay), m, delay(m));
  }

  /** The budget was empty when the loop came round. */
  lemma BudgetGone(replies: nat -> Reply, first: nat, m: nat, maxRetries: nat, maxDelay: nat,
      target: Target, before: Log, log: Log)
    requires Underway(replies, first, m, 0, maxDelay, target, before, log) && m <= maxRetries
    ensures Explained(replies, first, m, maxRetries, 0, Err(CommandTimeout))
    ensures log == Record(before, target, m, Delays(replies, first, maxDelay), Err(CommandTimeout))
  {
  }

  datatype Token = Token(accessToken: string, expiresAt: int)

  /** What the issuer said, and when it was received. */
  datatype Receipt = Receipt(payload: TokenPayload, at: int)

  /** A token at the moment a command goes on with it, and whether the command had to ask for it. */
  datatype Use = Use(receipt: Receipt, at: int, asked: bool)

  datatype TokenPayload = TokenPayload(accessToken: string, tokenType: string, expiresIn: int, scope: string)

  predicate UsableToken(payload: Option<TokenPayload>) {
    && payload.Some? && payload.value.accessToken != "" && IsBearer(payload.value.tokenType)
    && payload.value.expiresIn > 0 && payload.value.scope == PERMISSIONS_SYNC_SCOPE
  }

  class ManifestClient {
    const tokenSkew: nat
    const maxRetries: nat
    const maxRetryDelay: nat
    const decodeToken: string -> Option<TokenPayload>
    const decodeResult: string -> Option<SyncResult>
    var token: Option<Token>
    ghost var receipt: Option<Receipt>  // of the remembered token
    ghost var uses: seq<Use>            // one for every command that had a token

    constructor (tokenSkew: nat, maxRetries: nat, maxRetryDelay: nat,
        decodeToken: string -> Option<TokenPayload>, decodeResult: string -> Option<SyncResult>)
      ensures this.tokenSkew == tokenSkew && this.maxRetries == maxRetries && this.maxRetryDelay == maxRetryDelay
      ensures this.decodeToken == decodeToken && this.decodeResult == decodeResult
      ensures token == None && Valid() && uses == []
    {
      this.tokenSkew, this.maxRetries, this.maxRetryDelay := tokenSkew, maxRetries, maxRetryDelay;
      this.decodeToken, this.decodeResult := decodeToken, decodeResult;
      token, receipt, uses := None, None, [];
    }

    /** The remembered token is what its receipt makes of it, and no command has used a token in vain: one
        that was not asked for had been received less than its lifetime less the skew before. */
    ghost predicate Valid()
      reads this
    {
      && (token.Some? ==> receipt.Some? && token.value == TokenOf(receipt.value))
      && forall u | u in uses && !u.asked ::
           u.at - u.receipt.at < u.receipt.payload.expiresIn * 1_000_000_000 - tokenSkew
    }

    function TokenOf(receipt: Receipt): Token {
      Token(receipt.payload.accessToken, receipt.at + TimeToLive(receipt.payload.expiresIn, tokenSkew))
    }

    /** Ready for a command: besides, the clock does not run backwards, and the record is paced. */
    ghost predicate Ready(net: Network)
      reads this, net
    {
      Valid() && Paced(net.log, maxRetryDelay) && (receipt.Some? ==> receipt.value.at <= net.now)
    }

    /** The sleep between two attempts: the backoff, or what Retry-After asks for, up to the maximum. */
    method SleepAfter(net: Network, reply: Reply, attempt: nat) returns (ok: bool)
      requires reply.Refused? || reply.Answered?
      modifies net
      ensures net.made == old(net.made) && net.now >= old(net.now)
      ensures var slept := Pause(old(net.log), attempt, DelayAfter(reply, attempt, maxRetryDelay));
              net.log == if ok then slept else Then(slept, Cancelled)
    {
      var delay := Backoff(attempt);
      if reply.Answered? {
        var (seconds, usable) := ParseRetryAfter(reply.retryAfter);
        if usable {
          delay := Seconds(seconds);
        }
      }
      ok := net.Wait(attempt, MinDuration(delay, maxRetryDelay));
    }

    /** What a reply leads to: the loop ends with a result, ends on the last transport error, or goes on,
        most often after a sleep. */
    method AfterReply(net: Network, reply: Reply, attempt: nat, left: nat) returns (turn: Turn)
      requires attempt <= maxRetries
      modifies net
      ensures net.made == old(net.made) && net.now >= old(net.now)
      ensures net.log == Settled(old(net.log), attempt, DelayAfter(reply, attempt, maxRetryDelay), turn)
      ensures turn.Again? ==> Retryable(reply) && attempt < maxRetries && (left == 0 ==> reply.Unreadable?)
      ensures turn.GiveUp? ==> Breaks(reply) && EndsBy(reply, attempt + 1, maxRetries, left, Err(TransportError(reply.error)))
      ensures turn.Done? ==> EndsBy(reply, attempt + 1, maxRetries, left, turn.result) && turn.result != Err(CommandTimeout)
    {
      match reply {
        case Refused(_) =>
          if attempt == maxRetries || left == 0 {
            return GiveUp;
          }
        case Unreadable(_, _) =>
          return if attempt == maxRetries then GiveUp else Again;
        case Oversized(status) =>
          return Done(Err(SizeExceeded(status)));
        case Answered(status, header, body) =>
          if !RetryableStatus(status) || attempt == maxRetries || left == 0 {
            return Done(Ok(Response(status, header, body)));
          }
      }
      var waited := SleepAfter(net, reply, attempt);
      return if waited then Again else Done(Err(ContextError));
    }

    /** The retry loop. It makes `made - old(made)` attempts, each paid for from the budget; how it ends is
        explained by the last reply, and the log gains exactly its attempts and sleeps. The last line is
        reached only with an error in hand. */
    method Execute(net: Network, target: Target, budget: Budget) returns (r: Result<Response, Failure>)
      modifies net, budget
      ensures net.made >= old(net.made) && net.now >= old(net.now)
      ensures net.made + budget.attempts == old(net.made) + old(budget.attempts)
      ensures Explained(net.replies, old(net.made), net.made - old(net.made), maxRetries, budget.attempts, r)
      ensures net.log == Record(old(net.log), target, net.made - old(net.made),
                                Delays(net.replies, old(net.made), maxRetryDelay), r)
    {
      var last: Option<string> := None;
      ghost var first, before := net.made, net.log;
      var attempt := 0;
      while attempt <= maxRetries
        invariant 0 <= attempt <= maxRetries
        invariant net.made == first + attempt && net.now >= old(net.now)
        invariant net.made + budget.attempts == first + old(budget.attempts)
        invariant Underway(net.replies, first, attempt, budget.attempts, maxRetryDelay, target, before, net.log)
        decreases maxRetries + 1 - attempt
      {
        ghost var log := net.log;
        var ok := budget.Consume();
        if !ok {
          BudgetGone(net.replies, first, attempt, maxRetries, maxRetryDelay, target, before, log);
          return Err(CommandTimeout);
        }
        var reply := net.Do(target);
        if Breaks(reply) {
          last := Some(reply.error);
        }
        var turn := AfterReply(net, reply, attempt, budget.attempts);
        TurnTaken(net.replies, first, attempt, maxRetries, budget.attempts, maxRetryDelay, target, before, log, turn,
          if turn.Done? then turn.result else Err(TransportError(if last.Some? then last.value else "")));
        if turn.GiveUp? {
          break;
        }
        if turn.Done? {
          return turn.result;
        }
        attempt := attempt + 1;
      }
      return Err(TransportError(last.value));
    }

    /** The retry loop within a command, its log summed up. Only a request that failed, a body that could not
        be read, or one of five statuses is followed by another attempt. */
    method ExecuteWithin(net: Network, target: Target, budget: Budget) returns (r: Result<Response, Failure>)
      requires budget.attempts <= 3 && Paced(net.log, maxRetryDelay)
      modifies net, budget
      ensures net.made >= old(net.made) && net.now >= old(net.now)
      ensures net.made + budget.attempts == old(net.made) + old(budget.attempts)
      ensures Explained(net.replies, old(net.made), net.made - old(net.made), maxRetries, budget.attempts, r)
      ensures Charged(old(net.log), net.log, net.made - old(net.made), budget.attempts, maxRetryDelay, r == Err(ContextError))
      ensures forall n | old(net.made) <= n < net.made - 1 ::
                || net.replies(n).Refused? || net.replies(n).Unreadable?
                || (net.replies(n).Answered? && net.replies(n).status in {408, 429, 502, 503, 504})
    {
      r := Execute(net, target, budget);
      RecordCharged(net.replies, old(net.log), target, old(net.made), net.made - old(net.made),
        maxRetries, budget.attempts, maxRetryDelay, r);
    }

    /** A usable cached token, or a fresh one. Under the client's mutex, so one step for other senders. */
    method MachineToken(net: Network, budget: Budget) returns (r: Result<Token, Failure>)
      requires budget.attempts <= 3 && Ready(net)
      modifies this`token, this`receipt, this`uses, net, budget
      ensures Ready(net)
      ensures net.made >= old(net.made) && net.now >= old(net.now)
      ensures net.made + budget.attempts == old(net.made) + old(budget.attempts)
      ensures Charged(old(net.log), net.log, net.made - old(net.made), budget.attempts, maxRetryDelay, r == Err(ContextError))
      ensures r.Ok? ==> token == Some(r.value) && receipt.Some? && r.value.accessToken == receipt.value.payload.accessToken
      ensures r.Ok? ==> uses == old(uses) + [Use(receipt.value, net.now, net.made > old(net.made))]
      ensures r.Err? ==> token == old(token) && receipt == old(receipt) && uses == old(uses)
      ensures r.Err? ==> TokenFailure(net, old(net.made), budget.attempts, r.error)
      ensures old(token).Some? && old(token).value.expiresAt > old(net.now) ==>
                r == Ok(old(token).value) && net.log == old(net.log)
      ensures r.Ok? && net.made > old(net.made) ==> MintedBy(net.replies(net.made - 1), receipt.value, net.now)
      ensures r.Ok? && net.made == old(net.made) ==> old(token) == Some(r.value) && receipt == old(receipt)
    {
      if token.Some? && token.value.expiresAt > net.now {
        LifetimeExceeds(receipt.value.payload.expiresIn, tokenSkew, net.now - receipt.value.at);
        uses := uses + [Use(receipt.value, net.now, false)];
        return Ok(token.value);
      }
      var reply := ExecuteWithin(net, TokenEndpoint, budget);
      if reply.Err? {
        return Err(reply.error);
      }
      if reply.value.status >= 400 {
        return Err(TokenRefused(reply.value.status));
      }
      var payload := decodeToken(reply.value.body);
      if !UsableToken(payload) {
        return Err(InvalidTokenResponse(reply.value.status));
      }
      token := Some(Token(payload.value.accessToken, net.now + TimeToLive(payload.value.expiresIn, tokenSkew)));
      receipt := Some(Receipt(payload.value, net.now));
      uses := uses + [Use(receipt.value, net.now, true)];
      return Ok(token.value);
    }

    /** Why no token could be had: the issuer refused, its last answer was not a usable token, or the loop
        ended without an answer. */
    ghost predicate TokenFailure(net: Network, madeBefore: nat, left: nat, error: Failure)
      reads net
    {
      match error
      case TokenRefused(status) => net.made > madeBefore && LastStatus(net.replies(net.made - 1), status) && status >= 400
      case InvalidTokenResponse(status) =>
        && net.made > madeBefore && LastStatus(net.replies(net.made - 1), status) && status < 400
        && var payload := decodeToken(net.replies(net.made - 1).body);
        && (payload.Some? ==>
              || payload.value.accessToken == "" || !IsBearer(payload.value.tokenType)
              || payload.value.expiresIn <= 0 || payload.value.scope != "permissions:sync")
      case _ =>
        net.made >= madeBefore && Explained(net.replies, madeBefore, net.made - madeBefore, maxRetries, left, Err(error))
    }

    /** Why a command failed before it had a readable answer to its manifest: there was no token, or the loop
        that began at reply `from` ended without an answer. */
    ghost predicate ExchangeFailure(net: Network, madeBefore: nat, left: nat, error: Failure)
      reads net
    {
      || TokenFailure(net, madeBefore, left, error)
      || exists from: nat :: LoopFailure(net, madeBefore, from, left, error)
    }

    ghost predicate LoopFailure(net: Network, madeBefore: nat, from: nat, left: nat, error: Failure)
      reads net
    {
      && madeBefore <= from <= net.made
      && Explained(net.replies, from, net.made - from, maxRetries, left, Err(error))
    }

    predicate LastStatus(reply: Reply, status: int) {
      reply.Answered? && reply.status == status
    }

    /** A receipt for a reply just received, which is a usable token: a bearer token for the
        synchronization scope with a positive lifetime. */
    ghost predicate MintedBy(reply: Reply, receipt: Receipt, now: int) {
      && reply.Answered? && reply.status < 400
      && decodeToken(reply.body) == Some(receipt.payload) && receipt.at == now
      && receipt.payload.accessToken != "" && IsBearer(receipt.payload.tokenType)
      && receipt.payload.expiresIn > 0 && receipt.payload.scope == "permissions:sync"
    }

    /** The network side of a command: a token if need be, then the manifest, on a budget of three
        attempts in all. */
    method Exchange(net: Network) returns (r: Result<Response, Failure>, left: nat)
      requires Ready(net)
      modifies this`token, this`receipt, this`uses, net
      ensures Ready(net)
      ensures r.Ok? ==> |uses| == |old(uses)| + 1
      ensures old(uses) <= uses
      ensures net.made >= old(net.made) && (net.made - old(net.made)) + left == 3
      ensures WithinBudget(old(net.log), net.log, net.made - old(net.made), maxRetryDelay)
      ensures r.Ok? ==> LastAnswer(net, old(net.made), r.value, left)
      ensures r.Err? ==> ExchangeFailure(net, old(net.made), left, r.error)
      ensures r.Err? ==> !r.error.ManifestRefused? && !r.error.InvalidManifestResponse?
    {
      var budget := new Budget(3);
      var token := MachineToken(net, budget);
      if token.Err? {
        return Err(token.error), budget.attempts;
      }
      ghost var from := net.made;
      r := ExecuteWithin(net, ManifestEndpoint, budget);
      left := budget.attempts;
      assert r.Err? ==> LoopFailure(net, old(net.made), from, left, r.error);
    }

    /** The response is the last reply; a retryable status got through only because no attempt was left. */
    ghost predicate LastAnswer(net: Network, madeBefore: nat, response: Response, left: nat)
      reads net
    {
      && net.made > madeBefore
      && net.replies(net.made - 1) == Answered(response.status, response.retryAfter, response.body)
      && (response.status in {408, 429, 502, 503, 504} ==> left == 0 || net.made - madeBefore > maxRetries)
    }

    /** One command. It succeeds only with a result that passed every check against what was sent. */
    method Send(net: Network, prepared: Prepared) returns (r: Result<SyncResult, Failure>, left: nat)
      requires Ready(net)
      modifies this`token, this`receipt, this`uses, net
      ensures Ready(net)
      ensures r.Ok? ==> |uses| == |old(uses)| + 1
      ensures old(uses) <= uses
      ensures net.made >= old(net.made) && (net.made - old(net.made)) + left == 3
      ensures WithinBudget(old(net.log), net.log, net.made - old(net.made), maxRetryDelay)
      ensures forall u | u in uses && !u.asked ::
                u.at - u.receipt.at < u.receipt.payload.expiresIn * 1_000_000_000 - tokenSkew
      ensures r.Ok? ==> exists response ::
                LastAnswer(net, old(net.made), response, left) && response.status < 400
                && decodeResult(response.body) == Some(r.value) && ResultAccepted(r.value, prepared)
      ensures r.Err? && r.error.ManifestRefused? ==> exists response ::
                LastAnswer(net, old(net.made), response, left) && response.status == r.error.status >= 400
      ensures r.Err? && r.error.InvalidManifestResponse? ==> exists response ::
                && LastAnswer(net, old(net.made), response, left) && response.status < 400
                && (decodeResult(response.body).None? || !ResultAccepted(decodeResult(response.body).value, prepared))
      ensures r.Err? && !r.error.ManifestRefused? && !r.error.InvalidManifestResponse? ==>
                ExchangeFailure(net, old(net.made), left, r.error)
    {
      var reply;
      reply, left := Exchange(net);
      if reply.Err? {
        return Err(reply.error), left;
      }
      assert LastAnswer(net, old(net.made), reply.value, left);
      if reply.value.status >= 400 {
        return Err(ManifestRefused(reply.value.status)), left;
      }
      r := ReadResult(reply.value.body, prepared);
    }

    /** The strict reading and the check of a successful answer. */
    method ReadResult(body: string, prepared: Prepared) returns (r: Result<SyncResult, Failure>)
      ensures r.Ok? <==> decodeResult(body).Some? && ResultAccepted(decodeResult(body).value, prepared)
      ensures r.Ok? ==> decodeResult(body) == Some(r.value)
      ensures r.Err? ==> r == Err(InvalidManifestResponse)
    {
      var result := decodeResult(body);
      if result.None? {
        return Err(InvalidManifestResponse);
      }
      var fault := ValidateManifestResult(result.value, prepared);
      if fault.Some? {
        return Err(InvalidManifestResponse);
      }
      return Ok(result.value);
    }

    method ClearPermissionManifestTokenCache()
      requires Valid()
      modifies this`token, this`receipt
      ensures token == None && Valid() && receipt == None
    {
      token, receipt := None, None;
    }
  }

  /** expires_in in seconds less the skew, never negative. */
  function TimeToLive(expiresIn: int, skew: nat): nat {
    var ttl := expiresIn * 1_000_000_000 - skew;
    if ttl < 0 then 0 else ttl
  }

  /** A token outlives its reception by more than so many nanoseconds exactly when its lifetime exceeds the
      skew by more than that. */
  lemma LifetimeExceeds(expiresIn: int, skew: nat, later: nat)
    ensures TimeToLive(expiresIn, skew) > later <==> expiresIn * 1_000_000_000 > skew + later
  {
  }

  // ----- What a log may contain

  function Attempts(log: Log): nat {
    match log
    case Start => 0
    case Then(before, event) => Attempts(before) + if event.Attempt? then 1 else 0
  }

  function Sleeps(log: Log): nat {
    match log
    case Start => 0
    case Then(before, event) => Sleeps(before) + if event.Sleep? then 1 else 0
  }

  predicate Asleep(log: Log) {
    log.Then? && log.event.Sleep?
  }

  /** Every sleep is at most the maximum delay, its backoff exponent is at most one, and what follows it
      is another attempt or the cancellation. */
  predicate Spaced(log: Log, maxDelay: nat) {
    match log
    case Start => true
    case Then(before, event) =>
      && Spaced(before, maxDelay)
      && (Asleep(before) ==> event.Attempt? || event.Cancelled?)
      && (event.Sleep? ==> event.duration <= maxDelay && event.shift <= 1)
  }

  /** Spaced, and not ending in a sleep: every sleep is followed by an attempt or by cancellation. */
  predicate Paced(log: Log, maxDelay: nat) {
    Spaced(log, maxDelay) && !Asleep(log)
  }

  /** The log stays paced and gains `m` attempts, and fewer sleeps than attempts unless the last sleep was
      cancelled with attempts left. */
  ghost predicate Charged(before: Log, after: Log, m: nat, left: nat, maxDelay: nat, cancelled: bool) {
    && Paced(after, maxDelay)
    && Attempts(after) == Attempts(before) + m
    && (if cancelled then Sleeps(after) <= Sleeps(before) + m && left > 0
        else Sleeps(after) <= Sleeps(before) + if m == 0 then 0 else m - 1)
  }

  /** What a whole command may do to the log. */
  ghost predicate WithinBudget(before: Log, after: Log, m: nat, maxDelay: nat) {
    && Paced(after, maxDelay)
    && Attempts(after) == Attempts(before) + m
    && Sleeps(after) <= Sleeps(before) + 2
  }

  lemma {:induction false} RoundsSpaced(log: Log, target: Target, m: nat, delay: nat -> Option<nat>, maxDelay: nat)
    requires Paced(log, maxDelay) && m <= 2
    requires forall k :: delay(k).Some? ==> delay(k).value <= maxDelay
    ensures var rounds := Rounds(log, target, m, delay);
            Spaced(rounds, maxDelay) && Attempts(rounds) == Attempts(log) + m && Sleeps(rounds) <= Sleeps(log) + m
  {
    if m > 0 { RoundsSpaced(log, target, m - 1, delay, maxDelay); }
  }

  /** A loop pays for every attempt and sleeps only between attempts. */
  lemma RecordCharged(replies: nat -> Reply, log: Log, target: Target, first: nat, m: nat,
      maxRetries: nat, left: nat, maxDelay: nat, r: Result<Response, Failure>)
    requires Explained(replies, first, m, maxRetries, left, r)
    requires m + left <= 3 && Paced(log, maxDelay)
    ensures Charged(log, Record(log, target, m, Delays(replies, first, maxDelay), r), m, left, maxDelay, r == Err(ContextError))
  {
    var delay := Delays(replies, first, maxDelay);
    forall k ensures delay(k).Some? ==> delay(k).value <= maxDelay {
      DelaysAt(replies, first, maxDelay, k);
    }
    if m > 0 { DelaysAt(replies, first, maxDelay, m - 1); }
    RoundsCharged(log, target, m, delay, left, maxDelay, r);
  }

  lemma RoundsCharged(log: Log, target: Target, m: nat, delay: nat -> Option<nat>, left: nat,
      maxDelay: nat, r: Result<Response, Failure>)
    requires m + left <= 3 && Paced(log, maxDelay)
    requires forall k :: delay(k).Some? ==> delay(k).value <= maxDelay
    requires r == Err(CommandTimeout) && m > 0 ==> delay(m - 1) == None
    requires r == Err(ContextError) ==> left > 0 && m > 0
    ensures Charged(log, Record(log, target, m, delay, r), m, left, maxDelay, r == Err(ContextError))
  {
    if m > 0 {
      RoundsSpaced(log, target, m - 1, delay, maxDelay);
      if m <= 2 { RoundsSpaced(log, target, m, delay, maxDelay); }
    }
  }

  // ----- Retry-After

  function Decimal(n: nat): string {
    if n < 10 then [(n + '0' as int) as char] else Decimal(n / 10) + [(n % 10 + '0' as int) as char]
  }

  lemma {:induction false} DecimalRoundTrip(n: nat)
    ensures AllDigits(Decimal(n)) && DecimalValue(Decimal(n)) == n && Decimal(n) != ""
    ensures n > 0 ==> Decimal(n)[0] != '0'
  {
    if n >= 10 {
      DecimalRoundTrip(n / 10);
      var s := Decimal(n);
      assert s[..|s| - 1] == Decimal(n / 10);
    } else {
      assert Decimal(n)[..0] == "";
    }
  }

  function Pow10(k: nat): nat {
    if k == 0 then 1 else 10 * Pow10(k - 1)
  }

  lemma {:induction false} DecimalLength(n: nat, k: nat)
    requires k > 0 && n < Pow10(k)
    ensures |Decimal(n)| <= k
  {
    if n >= 10 {
      assert k > 1;
      DecimalLength(n / 10, k - 1);
    }
  }

  /** Every delay of one second to one day, written in decimal, is understood as itself. */
  lemma RetryAfterRoundTrip(n: nat)
    requires 1 <= n <= 86400
    ensures ParseRetryAfter(Decimal(n)) == (n, true)
  {
    DecimalRoundTrip(n);
    assert Pow10(5) == 100_000;
    DecimalLength(n, 5);
  }

  /** A retryable answer is followed by the delay it asks for. Without a usable header, as after a failed
      request, it is followed by a quarter of a second, then by half a second. The maximum caps all of them. */
  lemma DelaysAsAsked(status: int, n: nat, header: string, body: string, error: string, attempt: nat, maxDelay: nat)
    requires 1 <= n <= 86400 && !ParseRetryAfter(header).1
    ensures var delay := DelayAfter(Answered(status, Decimal(n), body), attempt, maxDelay);
            delay == Some(if n * 1_000_000_000 < maxDelay then n * 1_000_000_000 else maxDelay)
    ensures forall reply | reply in {Answered(status, header, body), Refused(error)} ::
              && DelayAfter(reply, 0, maxDelay) == Some(if 250_000_000 < maxDelay then 250_000_000 else maxDelay)
              && DelayAfter(reply, 1, maxDelay) == Some(if 500_000_000 < maxDelay then 500_000_000 else maxDelay)
  {
    RetryAfterRoundTrip(n);
    assert Pow2(1) == 2;
  }

  /** Exactly what is understood: at most five characters, no leading zero, digits after at most one
      plus sign, and a value of at most a day. "+05" is understood as five. */
  lemma RetryAfterExactly(value: string, seconds: int)
    ensures ParseRetryAfter(value) == (seconds, true) <==>
            && 1 <= |value| <= 5 && value[0] != '0' && 1 <= seconds <= 86400
            && var digits := if value[0] == '+' then value[1..] else value;
            && digits != "" && AllDigits(digits) && DecimalValue(digits) == seconds
  {
    if value != "" && value[0] == '-' { assert !AllDigits(value); }
  }

  lemma {:induction false} DecimalUnique(s: string)
    requires s != "" && AllDigits(s) && (s[0] != '0' || |s| == 1)
    ensures Decimal(DecimalValue(s)) == s
    ensures |s| > 1 ==> DecimalValue(s) >= 10
  {
    var init, last := s[..|s| - 1], s[|s| - 1] as int - '0' as int;
    assert s == init + [s[|s| - 1]];
    if |s| == 1 {
      assert init == "";
    } else {
      DecimalUnique(init);
      FirstDigitCounts(init);
      assert DecimalValue(s) / 10 == DecimalValue(init) && DecimalValue(s) % 10 == last;
    }
  }

  lemma {:induction false} FirstDigitCounts(s: string)
    requires s != "" && AllDigits(s) && s[0] != '0'
    ensures DecimalValue(s) > 0
  {
    if |s| > 1 {
      FirstDigitCounts(s[..|s| - 1]);
    } else {
      assert s[..0] == "";
    }
  }

  /** A delay is written the way it is understood exactly when no plus sign leads. */
  lemma UnderstoodAsWritten(value: string, seconds: int)
    requires ParseRetryAfter(value) == (seconds, true)
    ensures seconds >= 0 && (value == Decimal(seconds) <==> value[0] != '+')
  {
    if value[0] == '+' {
      DecimalRoundTrip(seconds);
    } else {
      DecimalUnique(value);
    }
  }

  /** A header of digits only would be the natural reading, but a plus sign passes, and behind it even a
      leading zero. */
  lemma PlusSignPasses()
    ensures ParseRetryAfter("+5") == (5, true) && ParseRetryAfter("+05") == (5, true)
    ensures ParseRetryAfter("05") == (0, false)
  {
    assert "+5"[1..] == "5" && "5"[..0] == "";
    assert "+05"[1..] == "05" && "05"[..1] == "0" && "0"[..0] == "";
  }
}
