/** The caching, call-sharing permission resolver as interleaved steps (authz/http_resolver.go). Any
    number of threads are inside Resolve at once; the cache may drop entries at any time. */
module Resolver {
  import opened Text
  import opened Permission
  import opened ResolverKey

  datatype Outcome = Pending | Granted(perms: seq<string>) | Failed

  /** A call to the resolve client, numbered by its position in the history. */
  datatype Call = Call(clientID: string, roles: seq<string>, outcome: Outcome)

  /** A call shared through singleflight: asking the client, about to store its answer, or about to
      release the key. */
  datatype Phase = Asking | Storing | Leaving

  datatype Flight = Flight(call: nat, phase: Phase)

  datatype Entry = Entry(perms: seq<string>, call: nat, storedAt: int)

  /** How a Resolve ended, with the call the answer comes from. */
  datatype Answer =
    | NoRoles
    | FromCache(entry: Entry, at: int)
    | FromCall(call: nat, perms: seq<string>)
    | FailedOpen(call: nat)
    | Refused(call: nat)

  datatype Stage = Started | Missed | Waiting(call: nat) | Done(answer: Answer)

  datatype Thread = Thread(clientID: string, roles: seq<string>, stage: Stage)
  {
    function Key(): string {
      KeyOf(clientID, roles)
    }
  }

  datatype Config = Config(ttl: nat, failOpen: bool)

  datatype State = State(
    now: int, cache: map<string, Entry>, flights: map<string, Flight>, calls: seq<Call>, threads: map<nat, Thread>)

  datatype Step =
    | Begin(t: nat, clientID: string, roles: seq<string>)
    | Hit(t: nat)
    | Miss(t: nat)
    | Join(t: nat)                           // singleflight: a call for the key is in flight
    | Launch(t: nat)                         // singleflight: this thread makes the call
    | Reply(key: string, outcome: Outcome)   // the client answers or fails
    | Store(key: string, kept: bool)         // SetWithTTL, which the cache may drop
    | Leave(key: string)                     // singleflight releases the key and wakes the waiters
    | Return(t: nat)
    | Invalidate(clientID': string, roles': seq<string>)
    | Clear
    | Evict(key: string)
    | Tick(elapsed: nat)

  /** What Resolve hands its caller; None is an error. */
  function Permissions(answer: Answer): Option<seq<string>> {
    match answer
    case NoRoles => Some([])
    case FromCache(entry, _) => Some(entry.perms)
    case FromCall(_, perms) => Some(perms)
    case FailedOpen(_) => Some([])
    case Refused(_) => None
  }

  predicate AtStage(s: State, t: nat, stage: Stage) {
    t in s.threads && s.threads[t].stage == stage
  }

  predicate InPhase(s: State, key: string, phase: Phase) {
    key in s.flights && s.flights[key].phase == phase && s.flights[key].call < |s.calls|
  }

  predicate Live(cfg: Config, s: State, key: string) {
    key in s.cache && s.now <= s.cache[key].storedAt + cfg.ttl
  }

  predicate Enabled(cfg: Config, s: State, step: Step) {
    match step
    case Begin(t, _, _) => t !in s.threads
    case Hit(t) => AtStage(s, t, Started) && Live(cfg, s, s.threads[t].Key())
    case Miss(t) => AtStage(s, t, Started)
    case Join(t) => AtStage(s, t, Missed) && s.threads[t].Key() in s.flights
    case Launch(t) => AtStage(s, t, Missed) && s.threads[t].Key() !in s.flights
    case Reply(key, outcome) => InPhase(s, key, Asking) && !outcome.Pending?
    case Store(key, _) => InPhase(s, key, Storing) && s.calls[s.flights[key].call].outcome.Granted?
    case Leave(key) => InPhase(s, key, Leaving)
    case Return(t) =>
      && t in s.threads && s.threads[t].stage.Waiting?
      && var c := s.threads[t].stage.call;
      && c < |s.calls| && !s.calls[c].outcome.Pending?
      && (s.threads[t].Key() in s.flights ==> s.flights[s.threads[t].Key()].call != c)
    case _ => true
  }

  function MoveTo(s: State, t: nat, stage: Stage): State
    requires t in s.threads
  {
    s.(threads := s.threads[t := s.threads[t].(stage := stage)])
  }

  function Apply(cfg: Config, s: State, step: Step): State
    requires Enabled(cfg, s, step)
  {
    match step
    case Begin(t, clientID, roles) =>
      s.(threads := s.threads[t := Thread(clientID, roles, if roles == [] then Done(NoRoles) else Started)])
    case Hit(t) => MoveTo(s, t, Done(FromCache(s.cache[s.threads[t].Key()], s.now)))
    case Miss(t) => MoveTo(s, t, Missed)
    case Join(t) => MoveTo(s, t, Waiting(s.flights[s.threads[t].Key()].call))
    case Launch(t) =>
      var th := s.threads[t];
      MoveTo(s, t, Waiting(|s.calls|)).(
        calls := s.calls + [Call(th.clientID, th.roles, Pending)],
        flights := s.flights[th.Key() := Flight(|s.calls|, Asking)])
    case Reply(key, outcome) =>
      var c := s.flights[key].call;
      s.(calls := s.calls[c := s.calls[c].(outcome := outcome)],
         flights := s.flights[key := Flight(c, if outcome.Granted? then Storing else Leaving)])
    case Store(key, kept) =>
      var c := s.flights[key].call;
      s.(cache := if kept then s.cache[key := Entry(s.calls[c].outcome.perms, c, s.now)] else s.cache,
         flights := s.flights[key := Flight(c, Leaving)])
    case Leave(key) => s.(flights := s.flights - {key})
    case Return(t) =>
      var c := s.threads[t].stage.call;
      MoveTo(s, t, Done(
        match s.calls[c].outcome
        case Granted(perms) => FromCall(c, perms)
        case _ => if cfg.failOpen then FailedOpen(c) else Refused(c)))
    case Invalidate(clientID, roles) => s.(cache := s.cache - {KeyOf(clientID, roles)})
    case Clear => s.(cache := map[])
    case Evict(key) => s.(cache := s.cache - {key})
    case Tick(elapsed) => s.(now := s.now + elapsed)
  }

  /** A run: every step is enabled when it is taken. */
  predicate Legal(cfg: Config, s: State, steps: seq<Step>)
    decreases |steps|
  {
    steps == [] || (Enabled(cfg, s, steps[0]) && Legal(cfg, Apply(cfg, s, steps[0]), steps[1..]))
  }

  function Exec(cfg: Config, s: State, steps: seq<Step>): State
    requires Legal(cfg, s, steps)
    decreases |steps|
  {
    if steps == [] then s else Exec(cfg, Apply(cfg, s, steps[0]), steps[1..])
  }

  const Initial := State(0, map[], map[], [], map[])

  // ----- The invariant

  function CallKey(c: Call): string {
    KeyOf(c.clientID, c.roles)
  }

  /** `c` is a finished call for the key, which answered `outcome`. */
  ghost predicate AnsweredBy(s: State, key: string, c: nat, outcome: Outcome) {
    c < |s.calls| && CallKey(s.calls[c]) == key && s.calls[c].outcome == outcome
  }

  ghost predicate CacheInv(s: State) {
    forall key | key in s.cache ::
      AnsweredBy(s, key, s.cache[key].call, Granted(s.cache[key].perms)) && s.cache[key].storedAt <= s.now
  }

  ghost predicate FlightOk(s: State, key: string, f: Flight) {
    && f.call < |s.calls| && CallKey(s.calls[f.call]) == key
    && (f.phase == Asking <==> s.calls[f.call].outcome == Pending)
    && (f.phase == Storing ==> s.calls[f.call].outcome.Granted?)
  }

  ghost predicate FlightInv(s: State) {
    forall key | key in s.flights :: FlightOk(s, key, s.flights[key])
  }

  /** Every pending call is the one in flight for its key. */
  ghost predicate CallInv(s: State) {
    forall c | 0 <= c < |s.calls| ::
      && s.calls[c].roles != []
      && (s.calls[c].outcome == Pending ==>
            CallKey(s.calls[c]) in s.flights && s.flights[CallKey(s.calls[c])].call == c)
  }

  ghost predicate AnswerInv(cfg: Config, s: State, th: Thread, answer: Answer) {
    match answer
    case NoRoles => th.roles == []
    case FromCache(entry, at) =>
      AnsweredBy(s, th.Key(), entry.call, Granted(entry.perms)) && entry.storedAt <= at <= entry.storedAt + cfg.ttl
    case FromCall(c, perms) => AnsweredBy(s, th.Key(), c, Granted(perms))
    case FailedOpen(c) => AnsweredBy(s, th.Key(), c, Failed) && cfg.failOpen
    case Refused(c) => AnsweredBy(s, th.Key(), c, Failed) && !cfg.failOpen
  }

  ghost predicate ThreadOk(cfg: Config, s: State, th: Thread) {
    && (th.roles == [] <==> th.stage == Done(NoRoles))
    && match th.stage
       case Waiting(c) => c < |s.calls| && CallKey(s.calls[c]) == th.Key()
       case Done(answer) => AnswerInv(cfg, s, th, answer)
       case _ => true
  }

  ghost predicate ThreadInv(cfg: Config, s: State) {
    forall t | t in s.threads :: ThreadOk(cfg, s, s.threads[t])
  }

  ghost predicate Inv(cfg: Config, s: State) {
    CacheInv(s) && FlightInv(s) && CallInv(s) && ThreadInv(cfg, s)
  }

  /** History only grows: finished calls keep their request and their outcome. */
  ghost predicate Extends(s: State, s': State) {
    && |s.calls| <= |s'.calls|
    && s.now <= s'.now
    && forall c | 0 <= c < |s.calls| ::
         && CallKey(s'.calls[c]) == CallKey(s.calls[c])
         && (s.calls[c].outcome != Pending ==> s'.calls[c] == s.calls[c])
  }

  lemma StepExtends(cfg: Config, s: State, step: Step)
    requires Enabled(cfg, s, step) && FlightInv(s)
    ensures Extends(s, Apply(cfg, s, step))
  {
  }

  lemma StepKeepsCache(cfg: Config, s: State, step: Step)
    requires Inv(cfg, s) && Enabled(cfg, s, step)
    ensures CacheInv(Apply(cfg, s, step))
  {
    StepExtends(cfg, s, step);
  }

  lemma StepKeepsFlights(cfg: Config, s: State, step: Step)
    requires Inv(cfg, s) && Enabled(cfg, s, step)
    ensures FlightInv(Apply(cfg, s, step))
  {
    var s' := Apply(cfg, s, step);
    StepExtends(cfg, s, step);
    forall key | key in s'.flights ensures FlightOk(s', key, s'.flights[key]) {
      if key in s.flights {
        assert FlightOk(s, key, s.flights[key]);
        if step.Reply? && step.key != key {
          assert FlightOk(s, step.key, s.flights[step.key]);
        }
      }
    }
  }

  lemma StepKeepsCalls(cfg: Config, s: State, step: Step)
    requires Inv(cfg, s) && Enabled(cfg, s, step)
    ensures CallInv(Apply(cfg, s, step))
  {
  }

  lemma ThreadPersists(cfg: Config, s: State, s': State, th: Thread)
    requires ThreadOk(cfg, s, th) && Extends(s, s')
    ensures ThreadOk(cfg, s', th)
  {
  }

  /** The thread a step moves, if any. */
  function Mover(step: Step): Option<nat> {
    match step
    case Begin(t, _, _) => Some(t)
    case Hit(t) => Some(t)
    case Miss(t) => Some(t)
    case Join(t) => Some(t)
    case Launch(t) => Some(t)
    case Return(t) => Some(t)
    case _ => None
  }

  lemma OthersStay(cfg: Config, s: State, step: Step)
    requires Enabled(cfg, s, step)
    ensures var s' := Apply(cfg, s, step);
            && s'.threads.Keys == s.threads.Keys + (if step.Begin? then {step.t} else {})
            && forall t | t in s.threads && Mover(step) != Some(t) :: s'.threads[t] == s.threads[t]
  {
  }

  lemma MoverOk(cfg: Config, s: State, step: Step)
    requires Inv(cfg, s) && Enabled(cfg, s, step) && Mover(step).Some?
    ensures ThreadOk(cfg, Apply(cfg, s, step), Apply(cfg, s, step).threads[Mover(step).value])
  {
    var t := Mover(step).value;
    if !step.Begin? {
      assert ThreadOk(cfg, s, s.threads[t]);
    }
  }

  lemma StepKeepsThreads(cfg: Config, s: State, step: Step)
    requires Inv(cfg, s) && Enabled(cfg, s, step)
    ensures ThreadInv(cfg, Apply(cfg, s, step))
  {
    var s' := Apply(cfg, s, step);
    StepExtends(cfg, s, step);
    OthersStay(cfg, s, step);
    if Mover(step).Some? { MoverOk(cfg, s, step); }
    forall t | t in s'.threads ensures ThreadOk(cfg, s', s'.threads[t]) {
      if Mover(step) != Some(t) {
        ThreadPersists(cfg, s, s', s.threads[t]);
      }
    }
  }

  /** Every state of every run satisfies the invariant. */
  lemma {:induction false} RunKeepsInv(cfg: Config, s: State, steps: seq<Step>)
    requires Inv(cfg, s) && Legal(cfg, s, steps)
    ensures Inv(cfg, Exec(cfg, s, steps))
    decreases |steps|
  {
    if steps != [] {
      StepKeepsCache(cfg, s, steps[0]);
      StepKeepsFlights(cfg, s, steps[0]);
      StepKeepsCalls(cfg, s, steps[0]);
      StepKeepsThreads(cfg, s, steps[0]);
      RunKeepsInv(cfg, Apply(cfg, s, steps[0]), steps[1..]);
    }
  }

  /** The state that a run ends in, from the beginning. */
  ghost predicate Reached(cfg: Config, steps: seq<Step>, s: State) {
    Legal(cfg, Initial, steps) && s == Exec(cfg, Initial, steps)
  }

  // ----- Every answer is genuine

  /** The call an answer comes from. */
  ghost function SourceOf(answer: Answer): nat
    requires !answer.NoRoles?
  {
    match answer
    case FromCache(entry, _) => entry.call
    case FromCall(c, _) => c
    case FailedOpen(c) => c
    case Refused(c) => c
  }

  /** An answer is what the client said to call number `c`: its permissions if it granted them, an error (or,
      failing open, nothing) if it failed. */
  ghost predicate AnswersCall(cfg: Config, s: State, answer: Answer, c: nat) {
    && c < |s.calls|
    && (answer.FromCache? || answer.FromCall? ==> s.calls[c].outcome == Granted(Permissions(answer).value))
    && (answer.FailedOpen? || answer.Refused? ==> s.calls[c].outcome == Failed && answer.FailedOpen? == cfg.failOpen)
  }

  /** Whatever the interleaving and whatever the roles, an answer is what the client said to a call that was
      made under the same key. One served from the cache was stored at most ttl before. Without roles the
      answer is the empty list. */
  lemma AnswersComeFromTheirKey(cfg: Config, steps: seq<Step>, s: State, t: nat)
    requires Reached(cfg, steps, s) && t in s.threads && s.threads[t].stage.Done?
    ensures var th := s.threads[t];
            var answer := th.stage.answer;
            && (answer.NoRoles? <==> th.roles == [])
            && (!answer.NoRoles? ==>
                  AnswersCall(cfg, s, answer, SourceOf(answer)) && CallKey(s.calls[SourceOf(answer)]) == th.Key())
            && (answer.FromCache? ==> answer.entry.storedAt <= answer.at <= answer.entry.storedAt + cfg.ttl)
  {
    RunKeepsInv(cfg, Initial, steps);
    assert ThreadOk(cfg, s, s.threads[t]);
  }

  /** Every Resolve of the run is asked for roles without separators. */
  ghost predicate CleanSteps(steps: seq<Step>) {
    forall step | step in steps && step.Begin? :: CleanRoles(step.roles)
  }

  /** Then so are the roles of every call and every thread. */
  ghost predicate CleanInv(s: State) {
    && (forall c | 0 <= c < |s.calls| :: s.calls[c].roles != [] && CleanRoles(s.calls[c].roles))
    && (forall t | t in s.threads :: CleanRoles(s.threads[t].roles))
    && (forall t | t in s.threads && s.threads[t].roles == [] :: s.threads[t].stage.Done?)
  }

  lemma {:induction false} RunStaysClean(cfg: Config, s: State, steps: seq<Step>)
    requires CleanInv(s) && Legal(cfg, s, steps) && CleanSteps(steps)
    ensures CleanInv(Exec(cfg, s, steps))
    decreases |steps|
  {
    if steps != [] {
      assert steps[0] in steps;
      RunStaysClean(cfg, Apply(cfg, s, steps[0]), steps[1..]);
    }
  }

  /** With roles free of separators the key gives the request away: whatever the interleaving, an answer is
      what the client said to a call for the same client and the same roles up to order. */
  lemma AnswersAreGenuine(cfg: Config, steps: seq<Step>, s: State, t: nat)
    requires Reached(cfg, steps, s) && CleanSteps(steps) && t in s.threads && s.threads[t].stage.Done?
    ensures var th := s.threads[t];
            var answer := th.stage.answer;
            && (answer.NoRoles? <==> th.roles == [])
            && (!answer.NoRoles? ==>
                  && AnswersCall(cfg, s, answer, SourceOf(answer))
                  && var call := s.calls[SourceOf(answer)];
                  && SameRequest(call.clientID, call.roles, th.clientID, th.roles))
            && (answer.FromCache? ==> answer.entry.storedAt <= answer.at <= answer.entry.storedAt + cfg.ttl)
  {
    AnswersComeFromTheirKey(cfg, steps, s, t);
    RunStaysClean(cfg, Initial, steps);
    var th := s.threads[t];
    if !th.stage.answer.NoRoles? {
      var call := s.calls[SourceOf(th.stage.answer)];
      KeyIdentifies(call.clientID, call.roles, th.clientID, th.roles);
    }
  }

  /** At most one client call is in flight for a client and its roles, in whatever order these are given. */
  lemma OneCallInFlight(cfg: Config, steps: seq<Step>, s: State, c: nat, d: nat)
    requires Reached(cfg, steps, s)
    requires var calls := s.calls;
             && c < |calls| && d < |calls| && calls[c].outcome == Pending && calls[d].outcome == Pending
             && SameRequest(calls[c].clientID, calls[c].roles, calls[d].clientID, calls[d].roles)
    ensures c == d
  {
    RunKeepsInv(cfg, Initial, steps);
    var calls := s.calls;
    SameRequestSameKey(calls[c].clientID, calls[c].roles, calls[d].clientID, calls[d].roles);
  }

  /** Errors are never cached: every entry is what a successful call for its key answered. */
  lemma OnlySuccessIsCached(cfg: Config, steps: seq<Step>, s: State, key: string)
    requires Reached(cfg, steps, s) && key in s.cache
    ensures AnsweredBy(s, key, s.cache[key].call, Granted(s.cache[key].perms))
  {
    RunKeepsInv(cfg, Initial, steps);
  }

  /** Failing open grants nothing: when the client fails, whoever waits for it holds no permission. */
  lemma FailingOpenGrantsNothing(cfg: Config, steps: seq<Step>, s: State, t: nat, target: PermissionKey,
      targets: seq<PermissionKey>)
    requires Reached(cfg, steps, s) && t in s.threads && s.threads[t].stage.Done?
    ensures var answer := s.threads[t].stage.answer;
            !answer.NoRoles? && SourceOf(answer) < |s.calls| && s.calls[SourceOf(answer)].outcome == Failed ==>
              && (Permissions(answer) == None <==> !cfg.failOpen)
              && (Permissions(answer).Some? ==>
                    && !HasPermission(target, Permissions(answer).value)
                    && !HasAnyPermission(targets, Permissions(answer).value)
                    && !HasAllPermissions(targets, Permissions(answer).value))
  {
    AnswersComeFromTheirKey(cfg, steps, s, t);
    NothingGrantsNothing(target, targets);
  }

  // ----- What Invalidate achieves

  /** An answer from a call older than number `n`. */
  predicate OldAnswer(answer: Answer, n: nat) {
    (answer.FromCache? && answer.entry.call < n) || (answer.FromCall? && answer.call < n)
  }

  ghost predicate FreshCall(s: State, c: nat, n: nat) {
    c >= n || (c < |s.calls| && s.calls[c].outcome == Failed)
  }

  ghost predicate FreshThread(s: State, th: Thread, key: string, n: nat) {
    th.Key() == key ==>
      match th.stage
      case Waiting(c) => FreshCall(s, c, n)
      case Done(answer) => !OldAnswer(answer, n)
      case _ => true
  }

  ghost predicate FreshSources(s: State, key: string, n: nat) {
    && n <= |s.calls|
    && (key in s.cache ==> s.cache[key].call >= n)
    && (key in s.flights ==> FreshCall(s, s.flights[key].call, n))
  }

  /** No thread outside `before` can be given an old answer for the key. */
  ghost predicate Fresh(s: State, key: string, n: nat, before: set<nat>) {
    && FreshSources(s, key, n)
    && forall t | t in s.threads && t !in before :: FreshThread(s, s.threads[t], key, n)
  }

  lemma StepKeepsSources(cfg: Config, s: State, step: Step, key: string, n: nat)
    requires Inv(cfg, s) && Enabled(cfg, s, step) && FreshSources(s, key, n)
    ensures FreshSources(Apply(cfg, s, step), key, n)
  {
    StepExtends(cfg, s, step);
  }

  lemma MoverFresh(cfg: Config, s: State, step: Step, key: string, n: nat)
    requires Inv(cfg, s) && Enabled(cfg, s, step) && FreshSources(s, key, n) && Mover(step).Some?
    requires step.Begin? || FreshThread(s, s.threads[Mover(step).value], key, n)
    ensures FreshThread(Apply(cfg, s, step), Apply(cfg, s, step).threads[Mover(step).value], key, n)
  {
  }

  lemma StepKeepsFresh(cfg: Config, s: State, step: Step, key: string, n: nat, before: set<nat>)
    requires Inv(cfg, s) && Enabled(cfg, s, step) && Fresh(s, key, n, before)
    ensures Fresh(Apply(cfg, s, step), key, n, before)
  {
    var s' := Apply(cfg, s, step);
    StepExtends(cfg, s, step);
    OthersStay(cfg, s, step);
    StepKeepsSources(cfg, s, step, key, n);
    if Mover(step).Some? && Mover(step).value !in before { MoverFresh(cfg, s, step, key, n); }
    forall t | t in s'.threads && t !in before ensures FreshThread(s', s'.threads[t], key, n) {
      if Mover(step) != Some(t) {
        assert s'.threads[t] == s.threads[t] && FreshThread(s, s.threads[t], key, n);
      }
    }
  }

  lemma {:induction false} RunKeepsFresh(cfg: Config, s: State, steps: seq<Step>, key: string, n: nat, before: set<nat>)
    requires Inv(cfg, s) && Legal(cfg, s, steps) && Fresh(s, key, n, before)
    ensures Fresh(Exec(cfg, s, steps), key, n, before)
    decreases |steps|
  {
    if steps != [] {
      StepKeepsFresh(cfg, s, steps[0], key, n, before);
      SingleStep(cfg, s, steps[0]);
      RunKeepsInv(cfg, s, [steps[0]]);
      RunKeepsFresh(cfg, Apply(cfg, s, steps[0]), steps[1..], key, n, before);
    }
  }

  /** The run ends with thread `t` holding an answer for the key older than call `n`. */
  ghost predicate Serves(cfg: Config, s: State, steps: seq<Step>, t: nat, key: string, n: nat) {
    && Legal(cfg, s, steps)
    && var s' := Exec(cfg, s, steps);
    && t in s'.threads && s'.threads[t].Key() == key
    && s'.threads[t].stage.Done? && OldAnswer(s'.threads[t].stage.answer, n)
  }

  lemma ServesBack(cfg: Config, s: State, step: Step, steps: seq<Step>, t: nat, key: string, n: nat)
    requires Enabled(cfg, s, step)
    requires Serves(cfg, Apply(cfg, s, step), steps, t, key, n)
    ensures Serves(cfg, s, [step] + steps, t, key, n)
  {
    assert ([step] + steps)[1..] == steps;
  }

  /** A thread waits for call `c` of the key, which is in flight and has not failed. */
  ghost predicate WaitsFor(s: State, t: nat, key: string, c: nat) {
    && AtStage(s, t, Waiting(c)) && s.threads[t].Key() == key
    && c < |s.calls| && key in s.flights && s.flights[key].call == c && s.calls[c].outcome != Failed
  }

  /** Answer, store, leave and return, as far as that has not been done. */
  lemma ServeFromWaiting(cfg: Config, s: State, t: nat, key: string, c: nat, n: nat) returns (steps: seq<Step>)
    requires FlightInv(s) && WaitsFor(s, t, key, c) && c < n
    ensures Serves(cfg, s, steps, t, key, n)
  {
    var answered := if s.flights[key].phase == Asking then Apply(cfg, s, Reply(key, Granted([]))) else s;
    var stored := if answered.flights[key].phase == Storing then Apply(cfg, answered, Store(key, true)) else answered;
    SingleStep(cfg, Apply(cfg, stored, Leave(key)), Return(t));
    ServesBack(cfg, stored, Leave(key), [Return(t)], t, key, n);
    steps := [Leave(key)] + [Return(t)];
    if answered.flights[key].phase == Storing {
      ServesBack(cfg, answered, Store(key, true), steps, t, key, n);
      steps := [Store(key, true)] + steps;
    }
    if s.flights[key].phase == Asking {
      ServesBack(cfg, s, Reply(key, Granted([])), steps, t, key, n);
      steps := [Reply(key, Granted([]))] + steps;
    }
  }

  /** A thread that starts while an unfailed call is in flight can join it. */
  lemma ServeFromStart(cfg: Config, s: State, t: nat, clientID: string, roles: seq<string>, n: nat)
    returns (steps: seq<Step>)
    requires FlightInv(s) && t !in s.threads && roles != []
    requires UnfailedInFlight(s, KeyOf(clientID, roles)) && s.flights[KeyOf(clientID, roles)].call < n
    ensures Serves(cfg, s, steps, t, KeyOf(clientID, roles), n)
  {
    var key := KeyOf(clientID, roles);
    var begun := Apply(cfg, s, Begin(t, clientID, roles));
    var missed := Apply(cfg, begun, Miss(t));
    var joined := Apply(cfg, missed, Join(t));
    steps := ServeFromWaiting(cfg, joined, t, key, s.flights[key].call, n);
    ServesBack(cfg, missed, Join(t), steps, t, key, n);
    steps := [Join(t)] + steps;
    ServesBack(cfg, begun, Miss(t), steps, t, key, n);
    steps := [Miss(t)] + steps;
    ServesBack(cfg, s, Begin(t, clientID, roles), steps, t, key, n);
    steps := [Begin(t, clientID, roles)] + steps;
  }

  lemma UnusedId(ids: set<nat>) returns (t: nat)
    ensures t !in ids
    ensures forall i | i in ids :: i < t
  {
    if ids == {} {
      t := 0;
    } else {
      var i :| i in ids;
      var u := UnusedId(ids - {i});
      t := if i < u then u else i + 1;
      assert ids == (ids - {i}) + {i};
    }
  }

  predicate UnfailedInFlight(s: State, key: string) {
    key in s.flights && s.flights[key].call < |s.calls| && s.calls[s.flights[key].call].outcome != Failed
  }

  /** Some run from here serves a thread that has yet to start an answer to this request from a call that
      has already been made. */
  ghost predicate ServesStale(cfg: Config, s: State, clientID: string, roles: seq<string>) {
    exists steps, t :: t !in s.threads && Serves(cfg, s, steps, t, KeyOf(clientID, roles), |s.calls|)
  }

  /** Once the cached entry is gone, a call under way is the only source of an older answer. */
  lemma StaleExactly(cfg: Config, s: State, clientID: string, roles: seq<string>)
    requires Inv(cfg, s) && roles != [] && KeyOf(clientID, roles) !in s.cache
    ensures ServesStale(cfg, s, clientID, roles) <==> UnfailedInFlight(s, KeyOf(clientID, roles))
  {
    var key, n := KeyOf(clientID, roles), |s.calls|;
    if UnfailedInFlight(s, key) {
      var t := UnusedId(s.threads.Keys);
      var steps := ServeFromStart(cfg, s, t, clientID, roles, n);
    } else {
      assert Fresh(s, key, n, s.threads.Keys);
      forall steps, t | t !in s.threads && Serves(cfg, s, steps, t, key, n) ensures false {
        RunKeepsFresh(cfg, s, steps, key, n, s.threads.Keys);
      }
    }
  }

  /** Invalidate drops the cached entry but not a call already under way. Exactly when such a call is in
      flight and has not failed can a Resolve that starts after the invalidation still be given an answer
      from before it; with none in flight every later answer comes from a call made afterwards. */
  lemma InvalidateExactly(cfg: Config, s: State, clientID: string, roles: seq<string>)
    requires Inv(cfg, s) && roles != []
    ensures ServesStale(cfg, Apply(cfg, s, Invalidate(clientID, roles)), clientID, roles)
            <==> UnfailedInFlight(s, KeyOf(clientID, roles))
  {
    SingleStep(cfg, s, Invalidate(clientID, roles));
    RunKeepsInv(cfg, s, [Invalidate(clientID, roles)]);
    StaleExactly(cfg, Apply(cfg, s, Invalidate(clientID, roles)), clientID, roles);
  }

  /** Clear drops every entry and misses the calls under way in the same way. */
  lemma ClearExactly(cfg: Config, s: State, clientID: string, roles: seq<string>)
    requires Inv(cfg, s) && roles != []
    ensures ServesStale(cfg, Apply(cfg, s, Clear), clientID, roles) <==> UnfailedInFlight(s, KeyOf(clientID, roles))
  {
    SingleStep(cfg, s, Clear);
    RunKeepsInv(cfg, s, [Clear]);
    StaleExactly(cfg, Apply(cfg, s, Clear), clientID, roles);
  }

  // ----- Without the assumption on roles

  /** A finished Resolve was answered from a call for its own request, or had no roles. */
  ghost predicate Genuine(s: State, th: Thread)
    requires th.stage.Done?
  {
    !th.stage.answer.NoRoles? ==>
      && SourceOf(th.stage.answer) < |s.calls|
      && var call := s.calls[SourceOf(th.stage.answer)];
      && SameRequest(call.clientID, call.roles, th.clientID, th.roles)
  }

  /** In every run, each Resolve of this request is answered from calls for this request. */
  ghost predicate AlwaysGenuine(cfg: Config, clientID: string, roles: seq<string>) {
    forall steps, t | Legal(cfg, Initial, steps) :: GenuineFor(Exec(cfg, Initial, steps), t, clientID, roles)
  }

  ghost predicate GenuineFor(s: State, t: nat, clientID: string, roles: seq<string>) {
    t in s.threads && s.threads[t].stage.Done? && s.threads[t].clientID == clientID && s.threads[t].roles == roles ==>
      Genuine(s, s.threads[t])
  }

  /** A run in which the second request is served what was granted to the first. */
  lemma SharedKeyMixesAnswers(cfg: Config, c1: string, r1: seq<string>, c2: string, r2: seq<string>, granted: seq<string>)
    returns (steps: seq<Step>)
    requires r1 != [] && r2 != [] && KeyOf(c1, r1) == KeyOf(c2, r2)
    ensures Legal(cfg, Initial, steps)
    ensures var s := Exec(cfg, Initial, steps);
            && s.calls == [Call(c1, r1, Granted(granted))]
            && 1 in s.threads && s.threads[1] == Thread(c2, r2, Done(FromCache(Entry(granted, 0, 0), 0)))
  {
    var solo := SoloRun(cfg, Initial, 0, c1, r1, Granted(granted), true);
    var s1 := SoloEnd(cfg, Initial, 0, c1, r1, Granted(granted), true);
    var s2 := Apply(cfg, s1, Begin(1, c2, r2));
    SingleStep(cfg, s2, Hit(1));
    StepThen(cfg, s1, Begin(1, c2, r2), [Hit(1)]);
    var more := [Begin(1, c2, r2)] + [Hit(1)];
    RunsCompose(cfg, Initial, solo, more);
    steps := solo + more;
  }

  /** With a separator in a role name the resolver does mix answers up: asked for the roles "a" and "b",
      it serves what was granted to the single role "a,b". */
  lemma UncleanRolesMixAnswers(cfg: Config, granted: seq<string>) returns (steps: seq<Step>)
    ensures Legal(cfg, Initial, steps)
    ensures var s := Exec(cfg, Initial, steps);
            && 1 in s.threads && s.threads[1].roles == ["a", "b"] && s.threads[1].stage.Done?
            && Permissions(s.threads[1].stage.answer) == Some(granted)
            && forall c | 0 <= c < |s.calls| :: s.calls[c].roles == ["a,b"]
  {
    SeparatorsCollide();
    steps := SharedKeyMixesAnswers(cfg, "app", ["a,b"], "app", ["a", "b"], granted);
  }

  /** Exactly the requests that own their key are safe from other requests' answers in every run; which
      these are is decided by OwnsKeyExactly. */
  lemma GenuineExactly(cfg: Config, clientID: string, roles: seq<string>)
    requires roles != []
    ensures AlwaysGenuine(cfg, clientID, roles) <==> OwnsKey(clientID, roles)
  {
    if OwnsKey(clientID, roles) {
      forall steps, t | Legal(cfg, Initial, steps) ensures GenuineFor(Exec(cfg, Initial, steps), t, clientID, roles) {
        var s := Exec(cfg, Initial, steps);
        if t in s.threads && s.threads[t].stage.Done? && s.threads[t].roles == roles {
          AnswersComeFromTheirKey(cfg, steps, s, t);
          RunKeepsInv(cfg, Initial, steps);
        }
      }
    } else {
      var c, r :| r != [] && KeyOf(c, r) == KeyOf(clientID, roles) && !SameRequest(c, r, clientID, roles);
      var steps := SharedKeyMixesAnswers(cfg, c, r, clientID, roles, []);
      assert !GenuineFor(Exec(cfg, Initial, steps), 1, clientID, roles);
    }
  }

  // ----- When a shared call was under way

  /** The call a thread waits for or was answered by. */
  function CallOf(stage: Stage): Option<nat> {
    match stage
    case Waiting(c) => Some(c)
    case Done(FromCall(c, _)) => Some(c)
    case Done(FailedOpen(c)) => Some(c)
    case Done(Refused(c)) => Some(c)
    case _ => None
  }

  ghost predicate HasCall(s: State, t: nat, c: nat) {
    t in s.threads && CallOf(s.threads[t].stage) == Some(c)
  }

  /** The thread waits for the call, which is in flight for its key. */
  ghost predicate WaitsInFlight(s: State, t: nat, c: nat) {
    && AtStage(s, t, Waiting(c))
    && s.threads[t].Key() in s.flights && s.flights[s.threads[t].Key()].call == c
  }

  lemma StepGivesCall(cfg: Config, s: State, step: Step, t: nat, c: nat)
    requires Enabled(cfg, s, step) && !HasCall(s, t, c) && HasCall(Apply(cfg, s, step), t, c)
    ensures WaitsInFlight(Apply(cfg, s, step), t, c)
  {
    OthersStay(cfg, s, step);
  }

  ghost predicate WaitsAfter(cfg: Config, s: State, steps: seq<Step>, k: nat, t: nat, c: nat) {
    k <= |steps| && Legal(cfg, s, steps[..k]) && WaitsInFlight(Exec(cfg, s, steps[..k]), t, c)
  }

  lemma {:induction false} CallWasInFlight(cfg: Config, s: State, steps: seq<Step>, t: nat, c: nat) returns (k: nat)
    requires Legal(cfg, s, steps) && !HasCall(s, t, c) && HasCall(Exec(cfg, s, steps), t, c)
    ensures WaitsAfter(cfg, s, steps, k, t, c)
    decreases |steps|
  {
    var s1 := Apply(cfg, s, steps[0]);
    if HasCall(s1, t, c) {
      StepGivesCall(cfg, s, steps[0], t, c);
      SingleStep(cfg, s, steps[0]);
      assert steps[..1] == [steps[0]];
      k := 1;
    } else {
      k := CallWasInFlight(cfg, s1, steps[1..], t, c);
      assert steps[..k + 1] == [steps[0]] + steps[1..][..k];
      StepThen(cfg, s, steps[0], steps[1..][..k]);
      k := k + 1;
    }
  }

  /** A Resolve that was not answered from the cache got its answer from a call that was in flight at some
      moment of that Resolve, while it waited: sharing never hands out the result of a call that was over
      before the caller came. */
  lemma AnsweredByCallInFlight(cfg: Config, steps: seq<Step>, s: State, t: nat)
    requires Reached(cfg, steps, s)
    requires t in s.threads && s.threads[t].stage.Done? && CallOf(s.threads[t].stage).Some?
    ensures exists k: nat :: WaitsAfter(cfg, Initial, steps, k, t, SourceOf(s.threads[t].stage.answer))
  {
    var k := CallWasInFlight(cfg, Initial, steps, t, SourceOf(s.threads[t].stage.answer));
  }

  lemma {:induction false} RunsCompose(cfg: Config, s: State, first: seq<Step>, second: seq<Step>)
    requires Legal(cfg, s, first) && Legal(cfg, Exec(cfg, s, first), second)
    ensures Legal(cfg, s, first + second)
    ensures Exec(cfg, s, first + second) == Exec(cfg, Exec(cfg, s, first), second)
    decreases |first|
  {
    if first == [] {
      assert first + second == second;
    } else {
      RunsCompose(cfg, Apply(cfg, s, first[0]), first[1..], second);
      assert (first + second)[1..] == first[1..] + second;
    }
  }

  // ----- One thread on its own

  /** The state after one undisturbed Resolve that misses the cache. */
  ghost function SoloEnd(cfg: Config, s: State, t: nat, clientID: string, roles: seq<string>,
      reply: Outcome, kept: bool): State {
    var c := |s.calls|;
    var key := KeyOf(clientID, roles);
    s.(calls := s.calls + [Call(clientID, roles, reply)],
       cache := if reply.Granted? && kept then s.cache[key := Entry(reply.perms, c, s.now)] else s.cache,
       threads := s.threads[t := Thread(clientID, roles, Done(
         if reply.Granted? then FromCall(c, reply.perms) else if cfg.failOpen then FailedOpen(c) else Refused(c)))])
  }

  lemma StepThen(cfg: Config, s: State, step: Step, steps: seq<Step>)
    requires Enabled(cfg, s, step) && Legal(cfg, Apply(cfg, s, step), steps)
    ensures Legal(cfg, s, [step] + steps)
    ensures Exec(cfg, s, [step] + steps) == Exec(cfg, Apply(cfg, s, step), steps)
  {
    assert ([step] + steps)[1..] == steps;
  }

  lemma SingleStep(cfg: Config, s: State, step: Step)
    requires Enabled(cfg, s, step)
    ensures Legal(cfg, s, [step]) && Exec(cfg, s, [step]) == Apply(cfg, s, step)
  {
    assert [step][1..] == [];
  }

  lemma SoloFinish(cfg: Config, s: State, t: nat, key: string, c: nat) returns (steps: seq<Step>)
    requires AtStage(s, t, Waiting(c)) && s.threads[t].Key() == key
    requires key in s.flights && s.flights[key] == Flight(c, Leaving)
    requires c < |s.calls| && s.calls[c].outcome != Pending
    ensures Legal(cfg, s, steps)
    ensures Exec(cfg, s, steps) == Apply(cfg, Apply(cfg, s, Leave(key)), Return(t))
  {
    var left := Apply(cfg, s, Leave(key));
    SingleStep(cfg, left, Return(t));
    StepThen(cfg, s, Leave(key), [Return(t)]);
    steps := [Leave(key)] + [Return(t)];
  }

  /** The state once the thread has started, missed the cache and launched its call. */
  ghost function SoloLaunched(s: State, t: nat, clientID: string, roles: seq<string>): State {
    s.(threads := s.threads[t := Thread(clientID, roles, Waiting(|s.calls|))],
       calls := s.calls + [Call(clientID, roles, Pending)],
       flights := s.flights[KeyOf(clientID, roles) := Flight(|s.calls|, Asking)])
  }

  /** From the client's answer on: the flight is about to be released. */
  lemma SoloReleased(cfg: Config, s: State, s5: State, t: nat, clientID: string, roles: seq<string>,
      reply: Outcome, kept: bool)
    returns (steps: seq<Step>)
    requires !reply.Pending? && KeyOf(clientID, roles) !in s.flights
    requires var end := SoloEnd(cfg, s, t, clientID, roles, reply, kept);
             s5 == end.(threads := s.threads[t := Thread(clientID, roles, Waiting(|s.calls|))],
                        flights := s.flights[KeyOf(clientID, roles) := Flight(|s.calls|, Leaving)])
    ensures Legal(cfg, s5, steps) && Exec(cfg, s5, steps) == SoloEnd(cfg, s, t, clientID, roles, reply, kept)
  {
    steps := SoloFinish(cfg, s5, t, KeyOf(clientID, roles), |s.calls|);
    assert Exec(cfg, s5, steps).flights == s.flights;
  }

  lemma SoloAnswered(cfg: Config, s: State, t: nat, clientID: string, roles: seq<string>, reply: Outcome, kept: bool)
    returns (steps: seq<Step>)
    requires roles != [] && !reply.Pending? && KeyOf(clientID, roles) !in s.flights
    ensures Legal(cfg, SoloLaunched(s, t, clientID, roles), steps)
    ensures Exec(cfg, SoloLaunched(s, t, clientID, roles), steps) == SoloEnd(cfg, s, t, clientID, roles, reply, kept)
  {
    var key := KeyOf(clientID, roles);
    var s3 := SoloLaunched(s, t, clientID, roles);
    var s4 := Apply(cfg, s3, Reply(key, reply));
    if reply.Granted? {
      steps := SoloReleased(cfg, s, Apply(cfg, s4, Store(key, kept)), t, clientID, roles, reply, kept);
      StepThen(cfg, s4, Store(key, kept), steps);
      steps := [Store(key, kept)] + steps;
    } else {
      steps := SoloReleased(cfg, s, s4, t, clientID, roles, reply, kept);
    }
    StepThen(cfg, s3, Reply(key, reply), steps);
    steps := [Reply(key, reply)] + steps;
  }

  lemma SoloRun(cfg: Config, s: State, t: nat, clientID: string, roles: seq<string>, reply: Outcome, kept: bool)
    returns (steps: seq<Step>)
    requires t !in s.threads && roles != [] && !reply.Pending? && KeyOf(clientID, roles) !in s.flights
    ensures Legal(cfg, s, steps) && Exec(cfg, s, steps) == SoloEnd(cfg, s, t, clientID, roles, reply, kept)
  {
    var s1 := Apply(cfg, s, Begin(t, clientID, roles));
    var s2 := Apply(cfg, s1, Miss(t));
    assert Apply(cfg, s2, Launch(t)) == SoloLaunched(s, t, clientID, roles);
    steps := SoloAnswered(cfg, s, t, clientID, roles, reply, kept);
    StepThen(cfg, s2, Launch(t), steps);
    steps := [Launch(t)] + steps;
    StepThen(cfg, s1, Miss(t), steps);
    steps := [Miss(t)] + steps;
    StepThen(cfg, s, Begin(t, clientID, roles), steps);
    steps := [Begin(t, clientID, roles)] + steps;
  }

  /** The resolver object as a single caller drives it. Its state is the machine's, so what is proved of
      every run holds of it. */
  class HttpResolver {
    const cfg: Config
    var now: int
    var cache: map<string, Entry>
    var calls: seq<Call>
    ghost var threads: map<nat, Thread>

    constructor (cfg: Config)
      ensures this.cfg == cfg && Abs() == Initial
    {
      this.cfg := cfg;
      now, cache, calls, threads := 0, map[], [], map[];
    }

    ghost function Abs(): State
      reads this
    {
      State(now, cache, map[], calls, threads)
    }

    /** Whether this request is answered without the client: it has no roles, or an entry at most ttl old. */
    predicate Answered(clientID: string, roles: seq<string>)
      reads this
    {
      roles == [] || (KeyOf(clientID, roles) in cache && now - cache[KeyOf(clientID, roles)].storedAt <= cfg.ttl)
    }

    /** Resolve; `reply` is what the client will say if it is asked, `kept` whether the cache will keep it.
        The client is asked exactly when there are roles and no live entry, its reply is what is recorded,
        returned and stored, and the calls are steps of the machine. */
    method Resolve(ghost t: nat, clientID: string, roles: seq<string>, reply: Outcome, kept: bool)
      returns (r: Option<seq<string>>, ghost steps: seq<Step>)
      requires t !in threads && !reply.Pending?
      modifies this
      ensures Legal(cfg, old(Abs()), steps) && Abs() == Exec(cfg, old(Abs()), steps)
      ensures t in threads && threads[t].clientID == clientID && threads[t].roles == roles
      ensures threads[t].stage.Done? && r == Permissions(threads[t].stage.answer)
      ensures now == old(now)
      ensures calls == if old(Answered(clientID, roles)) then old(calls) else old(calls) + [Call(clientID, roles, reply)]
      ensures cache == if !old(Answered(clientID, roles)) && reply.Granted? && kept
                       then old(cache)[KeyOf(clientID, roles) := Entry(reply.perms, |old(calls)|, now)]
                       else old(cache)
      ensures roles == [] ==> r == Some([])
      ensures roles != [] && old(Answered(clientID, roles)) ==> r == Some(old(cache)[KeyOf(clientID, roles)].perms)
      ensures !old(Answered(clientID, roles)) ==>
                r == match reply
                     case Granted(perms) => Some(perms)
                     case _ => if cfg.failOpen then Some([]) else None
    {
      if |roles| == 0 {
        steps := [Begin(t, clientID, roles)];
        threads := threads[t := Thread(clientID, roles, Done(NoRoles))];
        return Some([]), steps;
      }
      var key := CacheKey(clientID, roles);
      if key in cache && now <= cache[key].storedAt + cfg.ttl {
        ghost var begun := Apply(cfg, Abs(), Begin(t, clientID, roles));
        SingleStep(cfg, begun, Hit(t));
        StepThen(cfg, Abs(), Begin(t, clientID, roles), [Hit(t)]);
        steps := [Begin(t, clientID, roles)] + [Hit(t)];
        threads := Apply(cfg, begun, Hit(t)).threads;
        return Some(cache[key].perms), steps;
      }
      steps := SoloRun(cfg, Abs(), t, clientID, roles, reply, kept);
      threads := SoloEnd(cfg, Abs(), t, clientID, roles, reply, kept).threads;
      var call := |calls|;
      calls := calls + [Call(clientID, roles, reply)];
      if reply.Failed? {
        if cfg.failOpen {
          return Some([]), steps;
        }
        return None, steps;
      }
      if kept {
        cache := cache[key := Entry(reply.perms, call, now)];
      }
      return Some(reply.perms), steps;
    }

    /** Time passes between calls. */
    method Tick(elapsed: nat)
      modifies this
      ensures Abs() == Apply(cfg, old(Abs()), Step.Tick(elapsed))
    {
      now := now + elapsed;
    }

    method InvalidateEntry(clientID: string, roles: seq<string>)
      modifies this
      ensures Abs() == Apply(cfg, old(Abs()), Invalidate(clientID, roles))
    {
      var key := CacheKey(clientID, roles);
      cache := cache - {key};
    }

    method ClearEntries()
      modifies this
      ensures Abs() == Apply(cfg, old(Abs()), Clear)
    {
      cache := map[];
    }
  }
}
