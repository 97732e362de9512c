/** The JSON Web Key Set provider: a locked check-and-set cooldown, an unlocked fetch, and a lookup that
    hides stale sets (jwt/jwks.go). Threads interleave between lock operations; the clock may move at any
    moment, also while the lock is held. */
module Jwks {
  import opened Text

  datatype Key = Key(kid: string, material: string)

  type KeySet = seq<Key>

  /** A set in the history of stores, with the time recorded for it. */
  datatype Stored = Stored(set': KeySet, at: int)

  datatype Ending =
    | Found(key: Key, store: nat, at: int)
    | CoolingDown(at: int)
    | FetchFailed
    | Unknown
    | Preloaded

  datatype Stage =
    | Looking               // about to look up
    | Missed                // about to lock, to force a refresh
    | Locked                // holds the lock, about to check the cooldown
    | Granting              // holds the lock, about to record the grant
    | Fetching              // the request is under way, without the lock
    | Fetched(set': KeySet)
    | Storing(set': KeySet) // holds the lock, about to record the time
    | Refetched             // about to look up again
    | Done(ending: Ending)

  /** A caller of KeyByID for a key identifier, or of Preload. */
  datatype Thread = Thread(kid: Option<string>, stage: Stage)

  datatype Config = Config(refresh: nat, cooldown: nat)

  datatype State = State(
    now: int, set': Option<KeySet>, lastFetch: int, lastForced: Option<int>, lock: Option<nat>,
    threads: map<nat, Thread>, grants: seq<int>, stores: seq<Stored>)

  datatype Step =
    | Begin(t: nat, kid: string)
    | Preload(t: nat)
    | Look(t: nat)
    | Lock(t: nat)
    | Check(t: nat)
    | Grant(t: nat)
    | Fetch(t: nat, reply: Option<KeySet>)
    | Store(t: nat)
    | Stamp(t: nat)
    | LookAgain(t: nat)
    | Tick(elapsed: nat)

  function FirstKey(keys: KeySet, kid: string): Option<Key> {
    if keys == [] then None
    else if keys[0].kid == kid then Some(keys[0])
    else FirstKey(keys[1..], kid)
  }

  /** What a lookup sees: nothing without a set or when the set is stale. */
  function Visible(cfg: Config, s: State, kid: string): Option<Key> {
    if s.set'.None? || s.now - s.lastFetch > cfg.refresh then None else FirstKey(s.set'.value, kid)
  }

  predicate AtStage(s: State, t: nat, stage: Stage) {
    t in s.threads && s.threads[t].stage == stage
  }

  predicate Enabled(cfg: Config, s: State, step: Step) {
    match step
    case Begin(t, _) => t !in s.threads
    case Preload(t) => t !in s.threads
    case Look(t) => AtStage(s, t, Looking) && s.lock == None && s.threads[t].kid.Some?
    case Lock(t) => AtStage(s, t, Missed) && s.lock == None
    case Check(t) => AtStage(s, t, Locked)
    case Grant(t) => AtStage(s, t, Granting)
    case Fetch(t, _) => AtStage(s, t, Fetching)
    case Store(t) => t in s.threads && s.threads[t].stage.Fetched? && s.lock == None
    case Stamp(t) => t in s.threads && s.threads[t].stage.Storing?
    case LookAgain(t) => AtStage(s, t, Refetched) && s.lock == None && s.threads[t].kid.Some?
    case Tick(_) => true
  }

  function MoveTo(s: State, t: nat, stage: Stage): State
    requires t in s.threads
  {
    s.(threads := s.threads[t := s.threads[t].(stage := stage)])
  }

  function AfterLook(cfg: Config, s: State, t: nat, missed: Stage): State
    requires t in s.threads && s.threads[t].kid.Some?
  {
    match Visible(cfg, s, s.threads[t].kid.value)
    case Some(key) => MoveTo(s, t, Done(Found(key, if s.stores == [] then 0 else |s.stores| - 1, s.now)))
    case None => MoveTo(s, t, missed)
  }

  predicate Cooling(cfg: Config, s: State) {
    s.lastForced.Some? && s.now - s.lastForced.value < cfg.cooldown
  }

  function Apply(cfg: Config, s: State, step: Step): State
    requires Enabled(cfg, s, step)
  {
    match step
    case Begin(t, kid) => s.(threads := s.threads[t := Thread(Some(kid), Looking)])
    case Preload(t) => s.(threads := s.threads[t := Thread(None, Fetching)])
    case Look(t) => AfterLook(cfg, s, t, Missed)
    case Lock(t) => MoveTo(s, t, Locked).(lock := Some(t))
    case Check(t) =>
      if Cooling(cfg, s) then MoveTo(s, t, Done(CoolingDown(s.now))).(lock := None) else MoveTo(s, t, Granting)
    case Grant(t) =>
      MoveTo(s, t, Fetching).(lastForced := Some(s.now), grants := s.grants + [s.now], lock := None)
    case Fetch(t, reply) =>
      MoveTo(s, t, if reply.Some? then Fetched(reply.value) else Done(FetchFailed))
    case Store(t) =>
      var fetched := s.threads[t].stage.set';
      MoveTo(s, t, Storing(fetched)).(set' := Some(fetched), lock := Some(t))
    case Stamp(t) =>
      var stored := s.threads[t].stage.set';
      MoveTo(s, t, if s.threads[t].kid.Some? then Refetched else Done(Preloaded)).(
        lastFetch := s.now, stores := s.stores + [Stored(stored, s.now)], lock := None)
    case LookAgain(t) => AfterLook(cfg, s, t, Done(Unknown))
    case Tick(elapsed) => s.(now := s.now + elapsed)
  }

  predicate Legal(cfg: Config, s: State, steps: seq<Step>)
    decreases |steps|
  {
    steps == [] || (Enabled(cfg, s, steps[0]) && Legal(cfg, Apply(cfg, s, steps[0]), steps[1..]))
  }

  function Exec(cfg: Config, s: State, steps: seq<Step>): State
    requires Legal(cfg, s, steps)
    decreases |steps|
  {
    if steps == [] then s else Exec(cfg, Apply(cfg, s, steps[0]), steps[1..])
  }

  const Initial := State(0, None, 0, None, None, map[], [], [])

  // ----- The invariant

  predicate HoldsLock(stage: Stage) {
    stage.Locked? || stage.Granting? || stage.Storing?
  }

  /** The lock excludes: whoever is inside a locked section holds it. */
  ghost predicate LockInv(s: State) {
    && (forall t | t in s.threads && HoldsLock(s.threads[t].stage) :: s.lock == Some(t))
    && (s.lock.Some? ==> s.lock.value in s.threads && HoldsLock(s.threads[s.lock.value].stage))
  }

  /** Granted refreshes are a cooldown apart, and the last one is on record. */
  ghost predicate GrantInv(cfg: Config, s: State) {
    && (forall i | 0 < i < |s.grants| :: s.grants[i - 1] + cfg.cooldown <= s.grants[i])
    && (forall i | 0 <= i < |s.grants| :: s.grants[i] <= s.now)
    && s.lastForced == (if s.grants == [] then None else Some(s.grants[|s.grants| - 1]))
    && (s.lock.Some? && AtStage(s, s.lock.value, Granting) ==> !Cooling(cfg, s))
  }

  /** Unless a thread is in the middle of storing, the set and its time are those of the last store. */
  ghost predicate StoreInv(s: State) {
    && (forall i | 0 <= i < |s.stores| :: s.stores[i].at <= s.now)
    && (s.lock.Some? && s.lock.value in s.threads && s.threads[s.lock.value].stage.Storing? ==>
          s.set' == Some(s.threads[s.lock.value].stage.set'))
    && (!(s.lock.Some? && s.lock.value in s.threads && s.threads[s.lock.value].stage.Storing?) ==>
          if s.stores == [] then s.set' == None
          else s.set' == Some(s.stores[|s.stores| - 1].set') && s.lastFetch == s.stores[|s.stores| - 1].at)
  }

  ghost predicate EndingOk(cfg: Config, s: State, th: Thread) {
    match th.stage
    case Done(Found(key, store, at)) =>
      && th.kid == Some(key.kid)
      && store < |s.stores| && key in s.stores[store].set'
      && s.stores[store].at <= at <= s.stores[store].at + cfg.refresh
    case Done(CoolingDown(at)) => exists i | 0 <= i < |s.grants| :: s.grants[i] <= at < s.grants[i] + cfg.cooldown
    case _ => true
  }

  ghost predicate ThreadInv(cfg: Config, s: State) {
    forall t | t in s.threads :: EndingOk(cfg, s, s.threads[t])
  }

  ghost predicate Inv(cfg: Config, s: State) {
    LockInv(s) && GrantInv(cfg, s) && StoreInv(s) && ThreadInv(cfg, s)
  }

  lemma {:induction false} FirstKeyFound(keys: KeySet, kid: string)
    ensures FirstKey(keys, kid).Some? <==> exists k | k in keys :: k.kid == kid
    ensures FirstKey(keys, kid).Some? ==>
              exists i | 0 <= i < |keys| ::
                keys[i] == FirstKey(keys, kid).value && keys[i].kid == kid && forall j | 0 <= j < i :: keys[j].kid != kid
  {
    if keys != [] {
      FirstKeyFound(keys[1..], kid);
      assert keys == [keys[0]] + keys[1..];
      if keys[0].kid != kid && FirstKey(keys, kid).Some? {
        var i :| 0 <= i < |keys[1..]| && keys[1..][i] == FirstKey(keys, kid).value && keys[1..][i].kid == kid
          && forall j | 0 <= j < i :: keys[1..][j].kid != kid;
        assert keys[i + 1] == FirstKey(keys, kid).value;
        forall j | 0 <= j < i + 1 ensures keys[j].kid != kid {
          if j > 0 { assert keys[j] == keys[1..][j - 1]; }
        }
      }
    }
  }

  /** A lookup sees a key exactly when there is a set, no older than the refresh interval, with a key of that
      identifier in it, and then it sees such a key. */
  lemma FreshKeyIsSeen(cfg: Config, s: State, kid: string)
    ensures Visible(cfg, s, kid).Some? <==>
            s.set'.Some? && s.now <= s.lastFetch + cfg.refresh && exists k | k in s.set'.value :: k.kid == kid
    ensures Visible(cfg, s, kid).Some? ==> s.set'.Some? && Visible(cfg, s, kid).value in s.set'.value
                                           && Visible(cfg, s, kid).value.kid == kid
  {
    if s.set'.Some? { FirstKeyFound(s.set'.value, kid); }
  }

  lemma StepKeepsLock(cfg: Config, s: State, step: Step)
    requires Inv(cfg, s) && Enabled(cfg, s, step)
    ensures LockInv(Apply(cfg, s, step))
  {
  }

  lemma StepKeepsGrants(cfg: Config, s: State, step: Step)
    requires Inv(cfg, s) && Enabled(cfg, s, step)
    ensures GrantInv(cfg, Apply(cfg, s, step))
  {
  }

  lemma StepKeepsStores(cfg: Config, s: State, step: Step)
    requires Inv(cfg, s) && Enabled(cfg, s, step)
    ensures StoreInv(Apply(cfg, s, step))
  {
  }

  /** History only grows. */
  lemma EndingPersists(cfg: Config, s: State, step: Step, th: Thread)
    requires Enabled(cfg, s, step) && EndingOk(cfg, s, th)
    ensures EndingOk(cfg, Apply(cfg, s, step), th)
  {
    var s' := Apply(cfg, s, step);
    assert forall i | 0 <= i < |s.grants| :: s'.grants[i] == s.grants[i];
    assert forall i | 0 <= i < |s.stores| :: s'.stores[i] == s.stores[i];
  }

  lemma StepKeepsThreads(cfg: Config, s: State, step: Step)
    requires Inv(cfg, s) && Enabled(cfg, s, step)
    ensures ThreadInv(cfg, Apply(cfg, s, step))
  {
    var s' := Apply(cfg, s, step);
    forall t | t in s'.threads ensures EndingOk(cfg, s', s'.threads[t]) {
      if t in s.threads && s'.threads[t] == s.threads[t] {
        EndingPersists(cfg, s, step, s.threads[t]);
      } else if step.Look? || step.LookAgain? {
        FirstKeyFound(if s.set'.Some? then s.set'.value else [], s.threads[t].kid.value);
      } else if step.Check? && Cooling(cfg, s) {
        assert s.grants[|s.grants| - 1] <= s.now < s.grants[|s.grants| - 1] + cfg.cooldown;
      }
    }
  }

  /** Every state of every interleaving satisfies the invariant. */
  lemma {:induction false} RunKeepsInv(cfg: Config, s: State, steps: seq<Step>)
    requires Inv(cfg, s) && Legal(cfg, s, steps)
    ensures Inv(cfg, Exec(cfg, s, steps))
    decreases |steps|
  {
    if steps != [] {
      StepKeepsLock(cfg, s, steps[0]);
      StepKeepsGrants(cfg, s, steps[0]);
      StepKeepsStores(cfg, s, steps[0]);
      StepKeepsThreads(cfg, s, steps[0]);
      RunKeepsInv(cfg, Apply(cfg, s, steps[0]), steps[1..]);
    }
  }

  /** The state that a run ends in, from the beginning. */
  ghost predicate Reached(cfg: Config, steps: seq<Step>, s: State) {
    Legal(cfg, Initial, steps) && s == Exec(cfg, Initial, steps)
  }

  // ----- What holds of every run

  lemma {:induction false} GrantsSpan(cfg: Config, grants: seq<int>, i: nat, j: nat)
    requires i <= j < |grants|
    requires forall k | 0 < k < |grants| :: grants[k - 1] + cfg.cooldown <= grants[k]
    ensures (j - i) * cfg.cooldown <= grants[j] - grants[i]
    decreases j - i
  {
    if i < j {
      GrantsSpan(cfg, grants, i, j - 1);
      assert (j - i) * cfg.cooldown == (j - 1 - i) * cfg.cooldown + cfg.cooldown;
    }
  }

  /** Forced refreshes are rationed: in every concurrent run, k grants that fall within a window of length
      w satisfy (k - 1) * cooldown <= w. */
  lemma GrantsAreRationed(cfg: Config, steps: seq<Step>, s: State, first: nat, k: nat, w: int)
    requires Reached(cfg, steps, s) && k > 0
    requires var grants := s.grants;
             first + k <= |grants| && grants[first + k - 1] - grants[first] <= w
    ensures (k - 1) * cfg.cooldown <= w
  {
    RunKeepsInv(cfg, Initial, steps);
    GrantsSpan(cfg, s.grants, first, first + k - 1);
  }

  /** Whatever order overlapping fetches store in, a key that is returned has the requested identifier
      and belongs to a set stored at most `refresh` before it was looked up. */
  lemma ReturnedKeysAreFresh(cfg: Config, steps: seq<Step>, s: State, t: nat)
    requires Reached(cfg, steps, s)
    requires t in s.threads && s.threads[t].stage.Done? && s.threads[t].stage.ending.Found?
    ensures var found := s.threads[t].stage.ending;
            && s.threads[t].kid == Some(found.key.kid)
            && found.store < |s.stores| && found.key in s.stores[found.store].set'
            && 0 <= found.at - s.stores[found.store].at <= cfg.refresh
  {
    RunKeepsInv(cfg, Initial, steps);
    assert EndingOk(cfg, s, s.threads[t]);
  }

  /** A caller is turned away by the cooldown only because some refresh was granted less than a cooldown
      before. */
  lemma TurnedAwayOnlyAfterGrant(cfg: Config, steps: seq<Step>, s: State, t: nat)
    requires Reached(cfg, steps, s)
    requires t in s.threads && s.threads[t].stage.Done? && s.threads[t].stage.ending.CoolingDown?
    ensures var at := s.threads[t].stage.ending.at;
            exists i | 0 <= i < |s.grants| :: s.grants[i] <= at < s.grants[i] + cfg.cooldown
  {
    RunKeepsInv(cfg, Initial, steps);
    assert EndingOk(cfg, s, s.threads[t]);
  }

  /** At most one thread is inside a locked section. */
  lemma LockExcludes(cfg: Config, steps: seq<Step>, s: State, t: nat, u: nat)
    requires Reached(cfg, steps, s)
    requires t in s.threads && u in s.threads
    requires HoldsLock(s.threads[t].stage) && HoldsLock(s.threads[u].stage)
    ensures t == u
  {
    RunKeepsInv(cfg, Initial, steps);
  }

  // ----- The provider, driven by one caller

  lemma {:induction false} OneMore(cfg: Config, s: State, steps: seq<Step>, step: Step)
    requires Legal(cfg, s, steps) && Enabled(cfg, Exec(cfg, s, steps), step)
    ensures Legal(cfg, s, steps + [step])
    ensures Exec(cfg, s, steps + [step]) == Apply(cfg, Exec(cfg, s, steps), step)
    decreases |steps|
  {
    if steps == [] {
      assert [step][1..] == [] && steps + [step] == [step];
    } else {
      OneMore(cfg, Apply(cfg, s, steps[0]), steps[1..], step);
      assert (steps + [step])[1..] == steps[1..] + [step];
    }
  }

  lemma {:induction false} RunsCompose(cfg: Config, s: State, first: seq<Step>, second: seq<Step>)
    requires Legal(cfg, s, first) && Legal(cfg, Exec(cfg, s, first), second)
    ensures Legal(cfg, s, first + second)
    ensures Exec(cfg, s, first + second) == Exec(cfg, Exec(cfg, s, first), second)
    decreases |first|
  {
    if first == [] {
      assert first + second == second;
    } else {
      RunsCompose(cfg, Apply(cfg, s, first[0]), first[1..], second);
      assert (first + second)[1..] == first[1..] + second;
    }
  }

  /** The state once a caller on its own has been turned away by the cooldown, or granted a refresh. */
  function Decided(cfg: Config, s: State, t: nat, kid: string): State {
    if Cooling(cfg, s) then s.(threads := s.threads[t := Thread(Some(kid), Done(CoolingDown(s.now)))])
    else s.(threads := s.threads[t := Thread(Some(kid), Fetching)], lastForced := Some(s.now), grants := s.grants + [s.now])
  }

  /** A caller on its own that looks up a key. */
  lemma SoloLook(cfg: Config, s: State, t: nat, kid: string) returns (steps: seq<Step>)
    requires t !in s.threads && s.lock == None
    ensures Legal(cfg, s, steps)
    ensures Exec(cfg, s, steps) == AfterLook(cfg, Apply(cfg, s, Begin(t, kid)), t, Missed)
  {
    OneMore(cfg, s, [], Begin(t, kid));
    steps := [] + [Begin(t, kid)];
    OneMore(cfg, s, steps, Look(t));
    steps := steps + [Look(t)];
  }

  /** After a miss it locks and checks the cooldown. */
  lemma SoloDecide(cfg: Config, s: State, t: nat, kid: string) returns (steps: seq<Step>)
    requires t !in s.threads && s.lock == None && Visible(cfg, s, kid) == None
    ensures Legal(cfg, s, steps) && Exec(cfg, s, steps) == Decided(cfg, s, t, kid)
  {
    steps := SoloLook(cfg, s, t, kid);
    OneMore(cfg, s, steps, Lock(t));
    steps := steps + [Lock(t)];
    OneMore(cfg, s, steps, Check(t));
    steps := steps + [Check(t)];
    if !Cooling(cfg, s) {
      OneMore(cfg, s, steps, Grant(t));
      steps := steps + [Grant(t)];
    }
  }

  /** The provider object. Each piece of KeyByID between lock operations is one step of the machine; a
      caller on its own takes them one after the other. */
  class JWKSProvider {
    const cfg: Config
    var now: int
    var set': Option<KeySet>
    var lastFetch: int
    var lastForced: Option<int>
    ghost var threads: map<nat, Thread>
    ghost var grants: seq<int>
    ghost var stores: seq<Stored>

    constructor (cfg: Config)
      ensures this.cfg == cfg && Abs() == Initial
    {
      this.cfg := cfg;
      now, set', lastFetch, lastForced := 0, None, 0, None;
      threads, grants, stores := map[], [], [];
    }

    ghost function Abs(): State
      reads this
    {
      State(now, set', lastFetch, lastForced, None, threads, grants, stores)
    }

    /** Time passes between calls. */
    method Tick(elapsed: nat)
      modifies this`now
      ensures Abs() == Apply(cfg, old(Abs()), Step.Tick(elapsed))
    {
      now := now + elapsed;
    }

    /** lookup, a scan for the first key with the identifier. */
    method Lookup(kid: string) returns (key: Option<Key>)
      ensures key == Visible(cfg, Abs(), kid)
    {
      if set'.None? {
        return None;
      }
      if now - lastFetch > cfg.refresh {
        return None;
      }
      var keys := set'.value;
      for i := 0 to |keys|
        invariant FirstKey(keys[i..], kid) == FirstKey(keys, kid)
      {
        if keys[i].kid == kid {
          return Some(keys[i]);
        }
        assert keys[i..][1..] == keys[i + 1..];
      }
      return None;
    }

    /** fetch, once the reply is in: the set and its time are replaced together. */
    method Keep(fetched: KeySet)
      modifies this`set', this`lastFetch, this`stores
      ensures set' == Some(fetched) && lastFetch == now
      ensures stores == old(stores) + [Stored(fetched, now)]
    {
      set', lastFetch := Some(fetched), now;
      stores := stores + [Stored(fetched, now)];
    }

    /** Whether KeyByID goes to the server: there is no such key in a set that is not stale, and the cooldown
        is over. */
    predicate Asks(kid: string)
      reads this
    {
      && (set'.None? || now > lastFetch + cfg.refresh || forall key | key in set'.value :: key.kid != kid)
      && (lastForced.None? || now >= lastForced.value + cfg.cooldown)
    }

    /** KeyByID; `reply` is what the server will send if it is asked. A grant is recorded exactly when the
        server is asked, a set is stored exactly when it then replies, and that set is its reply. */
    method KeyByID(ghost t: nat, kid: string, reply: Option<KeySet>) returns (r: Option<Key>, ghost steps: seq<Step>)
      requires t !in threads
      modifies this
      ensures Legal(cfg, old(Abs()), steps) && Abs() == Exec(cfg, old(Abs()), steps)
      ensures t in threads && threads[t].kid == Some(kid) && threads[t].stage.Done?
      ensures r == if threads[t].stage.ending.Found? then Some(threads[t].stage.ending.key) else None
      ensures now == old(now)
      ensures grants == if old(Asks(kid)) then old(grants) + [now] else old(grants)
      ensures stores == if old(Asks(kid)) && reply.Some? then old(stores) + [Stored(reply.value, now)] else old(stores)
      ensures r == if !old(Asks(kid)) then old(Visible(cfg, Abs(), kid))
                   else if reply.Some? then FirstKey(reply.value, kid) else None
    {
      ghost var s := Abs();
      FreshKeyIsSeen(cfg, s, kid);
      var key := Lookup(kid);
      if key.Some? {
        steps := SoloLook(cfg, s, t, kid);
        threads := Exec(cfg, s, steps).threads;
        return key, steps;
      }
      steps := SoloDecide(cfg, s, t, kid);
      threads, grants := Exec(cfg, s, steps).threads, Exec(cfg, s, steps).grants;
      if lastForced.Some? && now - lastForced.value < cfg.cooldown {
        return None, steps;
      }
      lastForced := Some(now);
      ghost var more;
      r, more := FetchAndLookAgain(t, kid, reply);
      RunsCompose(cfg, s, steps, more);
      steps := steps + more;
    }

    /** The second half of KeyByID, after the grant: fetch, and look again. */
    method FetchAndLookAgain(ghost t: nat, kid: string, reply: Option<KeySet>)
      returns (r: Option<Key>, ghost steps: seq<Step>)
      requires t in threads && threads[t] == Thread(Some(kid), Fetching)
      modifies this
      ensures Legal(cfg, old(Abs()), steps) && Abs() == Exec(cfg, old(Abs()), steps)
      ensures t in threads && threads[t].kid == Some(kid) && threads[t].stage.Done?
      ensures r == if threads[t].stage.ending.Found? then Some(threads[t].stage.ending.key) else None
      ensures now == old(now) && grants == old(grants)
      ensures stores == if reply.Some? then old(stores) + [Stored(reply.value, now)] else old(stores)
      ensures r == if reply.Some? then FirstKey(reply.value, kid) else None
    {
      ghost var s := Abs();
      ghost var m := Apply(cfg, s, Fetch(t, reply));
      OneMore(cfg, s, [], Fetch(t, reply));
      steps := [] + [Fetch(t, reply)];
      if reply.None? {
        threads := m.threads;
        return None, steps;
      }
      Keep(reply.value);
      OneMore(cfg, s, steps, Store(t));
      steps, m := steps + [Store(t)], Apply(cfg, m, Store(t));
      OneMore(cfg, s, steps, Stamp(t));
      steps, m := steps + [Stamp(t)], Apply(cfg, m, Stamp(t));
      threads := m.threads;
      r := Lookup(kid);
      OneMore(cfg, s, steps, LookAgain(t));
      steps, m := steps + [LookAgain(t)], Apply(cfg, m, LookAgain(t));
      threads := m.threads;
    }
  }
}
