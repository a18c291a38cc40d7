/** The fixed-window rate limiter over a store of expiring counters. */
module RateLimiter {
  // Choosing the key, INCR and TTL are one step; setting a missing expiry is a later step, with other
  // requests in between.

  import opened Wrappers
  import opened Numerals
  import opened Separators

  datatype RateLimit = RateLimit(maxRequests: nat, windowSeconds: int, name: string)

  type Limit = l: RateLimit | l.windowSeconds > 0 witness RateLimit(300, 60, "global_ip")

  datatype Key = Key(name: string, identity: string, window: int)

  /** A counter, and when it expires if that has been set. */
  datatype Counter = Counter(count: nat, expiresAt: Option<real>)

  type Store = map<Key, Counter>

  /** int(time.time()) // window_seconds, for times after the epoch. */
  function WindowIndex(limit: Limit, now: real): int { now.Floor / limit.windowSeconds }

  function WindowKey(limit: Limit, identity: string, now: real): Key {
    Key(limit.name, identity, WindowIndex(limit, now))
  }

  predicate Alive(store: Store, key: Key, now: real) {
    key in store && (store[key].expiresAt.Some? ==> now < store[key].expiresAt.value)
  }

  /** INCR: an expired counter starts again without an expiry. */
  function Incr(store: Store, key: Key, now: real): Store {
    if Alive(store, key, now) then store[key := store[key].(count := store[key].count + 1)]
    else store[key := Counter(1, None)]
  }

  /** EXPIRE does nothing to a counter that is gone. */
  function Expire(store: Store, key: Key, now: real, seconds: int): Store {
    if Alive(store, key, now) then store[key := store[key].(expiresAt := Some(now + seconds as real))] else store
  }

  /** Stores that agree on a key and on all the others are equal. */
  lemma SameStore(a: Store, b: Store, key: Key)
    requires a - {key} == b - {key} && (key in a <==> key in b) && (key in a ==> a[key] == b[key])
    ensures a == b
  {
    forall k ensures k in a <==> k in b {
      assert k != key ==> (k in a <==> k in a - {key}) && (k in b <==> k in b - {key});
    }
    forall k | k in a ensures a[k] == b[k] {
      assert k != key ==> a[k] == (a - {key})[k] && b[k] == (b - {key})[k];
    }
  }

  class Redis {
    var store: Store

    constructor ()
      ensures store == map[]
    {
      store := map[];
    }

    /** INCR and TTL in one transaction; a missing expiry shows as a negative TTL. A live counter counts
        one more and keeps its expiry; an absent or expired one starts again at one without an expiry;
        no other counter changes. */
    method IncrAndTtl(key: Key, now: real) returns (count: nat, ttlMissing: bool)
      modifies this
      ensures key in store && store[key].count == count && ttlMissing == store[key].expiresAt.None?
      ensures Alive(old(store), key, now) ==>
                count == old(store)[key].count + 1 && store[key].expiresAt == old(store)[key].expiresAt
      ensures !Alive(old(store), key, now) ==> count == 1 && ttlMissing
      ensures store - {key} == old(store) - {key}
    {
      if key in store && (store[key].expiresAt.None? || now < store[key].expiresAt.value) {
        count := store[key].count + 1;
        ttlMissing := store[key].expiresAt.None?;
      } else {
        count, ttlMissing := 1, true;
      }
      store := store[key := Counter(count, if ttlMissing then None else store[key].expiresAt)];
    }

    /** EXPIRE: a live counter expires the seconds from now, and nothing else changes. */
    method SetExpiry(key: Key, now: real, seconds: int)
      modifies this
      ensures Alive(old(store), key, now) ==>
                key in store && store[key] == Counter(old(store)[key].count, Some(now + seconds as real))
      ensures !Alive(old(store), key, now) ==> store == old(store)
      ensures store - {key} == old(store) - {key}
    {
      if key in store && (store[key].expiresAt.None? || now < store[key].expiresAt.value) {
        store := store[key := store[key].(expiresAt := Some(now + seconds as real))];
      }
    }

    /** One request with nothing interleaved; allows the request when either command fails. */
    method CountAndCheck(limit: Limit, identity: string, now: real, expiryAt: real, counts: bool, expires: bool)
      returns (allowed: bool)
      modifies this
      ensures !counts ==> allowed && store == old(store)
      ensures counts ==>
                var key := WindowKey(limit, identity, now);
                var counted := Incr(old(store), key, now);
                var missing := counted[key].expiresAt.None?;
                && store == (if missing && expires then Expire(counted, key, expiryAt, limit.windowSeconds)
                             else counted)
                && allowed == ((missing && !expires) || counted[key].count <= limit.maxRequests)
    {
      if !counts {
        return true;
      }
      var key := WindowKey(limit, identity, now);
      var count, ttlMissing := IncrAndTtl(key, now);
      SameStore(store, Incr(old(store), key, now), key);
      if ttlMissing {
        if !expires {
          return true;
        }
        ghost var counted := store;
        SetExpiry(key, expiryAt, limit.windowSeconds);
        SameStore(store, Expire(counted, key, expiryAt, limit.windowSeconds), key);
      }
      return count <= limit.maxRequests;
    }
  }

  // ---- Interleaved requests --------------------------------------------------------------

  /** The budgets, each under its own name. */
  type Limits = f: string -> Limit | forall name :: f(name).name == name
    ghost witness (name: string) => RateLimit(300, 60, name)

  /** A request counts itself, or sets the expiry it found missing. */
  datatype Step = Count(name: string, identity: string, now: real) | SetExpiry(key: Key, now: real)

  /** The counters, and the expiries still to be set. */
  datatype State = State(store: Store, pending: multiset<Key>)

  function StepKey(limits: Limits, step: Step): Key
    requires step.Count?
  {
    WindowKey(limits(step.name), step.identity, step.now)
  }

  function Perform(limits: Limits, s: State, step: Step): State {
    match step
    case Count(_, _, now) =>
      var key := StepKey(limits, step);
      var store := Incr(s.store, key, now);
      State(store, if store[key].expiresAt.None? then s.pending + multiset{key} else s.pending)
    case SetExpiry(key, now) =>
      if key in s.pending then
        State(Expire(s.store, key, now, limits(key.name).windowSeconds), s.pending - multiset{key})
      else s
  }

  function Run(limits: Limits, steps: seq<Step>): State {
    if steps == [] then State(map[], multiset{})
    else Perform(limits, Run(limits, steps[..|steps| - 1]), steps[|steps| - 1])
  }

  /** What the request is told, when its commands succeed. */
  predicate Answer(limits: Limits, s: State, step: Step)
    requires step.Count?
  {
    var key := StepKey(limits, step);
    Incr(s.store, key, step.now)[key].count <= limits(step.name).maxRequests
  }

  /** The clock starts after the epoch and does not run backwards. */
  ghost predicate Clocked(steps: seq<Step>) {
    && (forall i :: 0 <= i < |steps| ==> 0.0 <= steps[i].now)
    && (forall i, j :: 0 <= i < j < |steps| ==> steps[i].now <= steps[j].now)
  }

  /** The last of the steps is a request counted under the key. */
  predicate CountsKey(limits: Limits, steps: seq<Step>, key: Key) {
    steps != [] && steps[|steps| - 1].Count? && StepKey(limits, steps[|steps| - 1]) == key
  }

  /** The last of the steps is a request that is allowed. */
  predicate AllowsLast(limits: Limits, steps: seq<Step>) {
    steps != [] && steps[|steps| - 1].Count? && Answer(limits, Run(limits, steps[..|steps| - 1]), steps[|steps| - 1])
  }

  function Hits(limits: Limits, steps: seq<Step>, key: Key): nat {
    if steps == [] then 0
    else Hits(limits, steps[..|steps| - 1], key) + if CountsKey(limits, steps, key) then 1 else 0
  }

  function Admissions(limits: Limits, steps: seq<Step>, key: Key): nat {
    if steps == [] then 0
    else
      Admissions(limits, steps[..|steps| - 1], key)
      + if CountsKey(limits, steps, key) && AllowsLast(limits, steps) then 1 else 0
  }

  // ---- Windows -----------------------------------------------------------------------------

  function WindowStart(limit: Limit, window: int): real { (window * limit.windowSeconds) as real }

  function WindowEnd(limits: Limits, key: Key): real {
    WindowStart(limits(key.name), key.window) + limits(key.name).windowSeconds as real
  }

  lemma InsideWindow(limit: Limit, now: real)
    ensures var w := WindowIndex(limit, now);
            WindowStart(limit, w) <= now < WindowStart(limit, w) + limit.windowSeconds as real
  {
    var n, size := now.Floor, limit.windowSeconds;
    assert n == (n / size) * size + n % size;
  }

  /** Every expiry set, or still to be set, falls at the end of its key's window or later. */
  ghost predicate ExpiresLate(limits: Limits, s: State, now: real) {
    && (forall key :: key in s.store ==>
          && WindowStart(limits(key.name), key.window) <= now
          && (s.store[key].expiresAt.Some? ==> WindowEnd(limits, key) <= s.store[key].expiresAt.value))
    && (forall key :: key in s.pending ==> WindowStart(limits(key.name), key.window) <= now)
  }

  lemma LateStep(limits: Limits, s: State, step: Step, now: real)
    requires ExpiresLate(limits, s, step.now) && step.now <= now
    ensures ExpiresLate(limits, Perform(limits, s, step), now)
  {
    if step.Count? {
      LateCount(limits, s, step, now);
    }
  }

  lemma LateCount(limits: Limits, s: State, step: Step, now: real)
    requires ExpiresLate(limits, s, step.now) && step.now <= now && step.Count?
    ensures ExpiresLate(limits, Perform(limits, s, step), now)
  {
    InsideWindow(limits(step.name), step.now);
    assert WindowStart(limits(step.name), StepKey(limits, step).window) <= now;
  }

  lemma {:induction false} NoEarlyExpiry(limits: Limits, steps: seq<Step>, now: real)
    requires Clocked(steps) && (steps == [] || steps[|steps| - 1].now <= now)
    ensures ExpiresLate(limits, Run(limits, steps), now)
  {
    if steps != [] {
      var front, step := steps[..|steps| - 1], steps[|steps| - 1];
      NoEarlyExpiry(limits, front, step.now);
      LateStep(limits, Run(limits, front), step, now);
    }
  }

  /** The requests under the key that have found no expiry and not yet set one. */
  function Owed(limits: Limits, steps: seq<Step>, key: Key): nat {
    if steps == [] then 0
    else
      var before := Owed(limits, steps[..|steps| - 1], key);
      match steps[|steps| - 1]
      case Count(_, _, _) =>
        if CountsKey(limits, steps, key) && ExpiryOf(Run(limits, steps).store, key).None? then before + 1 else before
      case SetExpiry(k, _) => if k == key && before > 0 then before - 1 else before
  }

  lemma OwedNext(limits: Limits, s: State, step: Step, key: Key)
    ensures var n, after := s.pending[key], Perform(limits, s, step);
            after.pending[key]
            == if step.Count? && StepKey(limits, step) == key && ExpiryOf(after.store, key).None? then n + 1
               else if step.SetExpiry? && step.key == key && n > 0 then n - 1
               else n
  {
  }

  /** Every request that finds no expiry sends one EXPIRE, and no other is sent. */
  lemma {:induction false} ExpiriesAreOwed(limits: Limits, steps: seq<Step>, key: Key)
    ensures Run(limits, steps).pending[key] == Owed(limits, steps, key)
  {
    if steps != [] {
      var front, step := steps[..|steps| - 1], steps[|steps| - 1];
      ExpiriesAreOwed(limits, front, key);
      OwedNext(limits, Run(limits, front), step, key);
    }
  }

  /** Some step set the expiry, one window length ahead. */
  ghost predicate WasSet(limits: Limits, steps: seq<Step>, key: Key, expiry: real) {
    exists i :: 0 <= i < |steps| && steps[i].SetExpiry? && steps[i].key == key
      && expiry == steps[i].now + limits(key.name).windowSeconds as real
  }

  function ExpiryOf(store: Store, key: Key): Option<real> { if key in store then store[key].expiresAt else None }

  lemma CountKeepsExpiry(limits: Limits, s: State, step: Step, key: Key)
    requires step.Count?
    ensures var after := ExpiryOf(Perform(limits, s, step).store, key);
            after.Some? ==> ExpiryOf(s.store, key) == after
  {
  }

  lemma OneExpirySet(limits: Limits, s: State, step: Step, key: Key)
    requires step.SetExpiry?
    ensures var after := ExpiryOf(Perform(limits, s, step).store, key);
            after.Some? ==>
              || ExpiryOf(s.store, key) == after
              || (step.key == key && after.value == step.now + limits(key.name).windowSeconds as real)
  {
  }

  lemma WasSetNext(limits: Limits, front: seq<Step>, step: Step, key: Key, expiry: real)
    requires WasSet(limits, front, key, expiry)
          || (step.SetExpiry? && step.key == key && expiry == step.now + limits(key.name).windowSeconds as real)
    ensures WasSet(limits, front + [step], key, expiry)
  {
    var steps := front + [step];
    if WasSet(limits, front, key, expiry) {
      var i :| 0 <= i < |front| && front[i].SetExpiry? && front[i].key == key
        && expiry == front[i].now + limits(key.name).windowSeconds as real;
      assert steps[i] == front[i];
    } else {
      assert steps[|front|] == step;
    }
  }

  ghost predicate ExpirySound(limits: Limits, steps: seq<Step>, key: Key) {
    var expiry := ExpiryOf(Run(limits, steps).store, key);
    expiry.Some? ==> WasSet(limits, steps, key, expiry.value)
  }

  /** A counter that expires does so one window length after an expiry was set for it. */
  lemma {:induction false} ExpiryWasSet(limits: Limits, steps: seq<Step>, key: Key)
    ensures ExpirySound(limits, steps, key)
  {
    if steps != [] {
      var front, step := steps[..|steps| - 1], steps[|steps| - 1];
      ExpiryWasSet(limits, front, key);
      ExpiryNext(limits, front, step, key);
      assert steps == front + [step];
    }
  }

  lemma ExpiryNext(limits: Limits, front: seq<Step>, step: Step, key: Key)
    requires ExpirySound(limits, front, key)
    ensures ExpirySound(limits, front + [step], key)
  {
    RunSnoc(limits, front, step);
    ExpiryStep(limits, Run(limits, front), step, key);
    var expiry := ExpiryOf(Run(limits, front + [step]).store, key);
    if expiry.Some? {
      WasSetNext(limits, front, step, key, expiry.value);
    }
  }

  lemma ExpiryStep(limits: Limits, s: State, step: Step, key: Key)
    ensures var after := ExpiryOf(Perform(limits, s, step).store, key);
            after.Some? ==>
              || ExpiryOf(s.store, key) == after
              || (step.SetExpiry? && step.key == key
                  && after.value == step.now + limits(key.name).windowSeconds as real)
  {
    if step.Count? {
      CountKeepsExpiry(limits, s, step, key);
    } else {
      OneExpirySet(limits, s, step, key);
    }
  }

  /** The counter of the key stands at a number of hits; a key never hit has none. */
  ghost predicate StandsAt(store: Store, key: Key, hits: nat, now: real) {
    if hits == 0 then key !in store else Alive(store, key, now) && store[key].count == hits
  }

  lemma StepStandsAt(limits: Limits, s: State, step: Step, key: Key, hits: nat, now: real)
    requires ExpiresLate(limits, s, step.now) && StandsAt(s.store, key, hits, step.now)
    requires ExpiresLate(limits, Perform(limits, s, step), now) && now < WindowEnd(limits, key)
    ensures StandsAt(Perform(limits, s, step).store, key,
                     hits + if step.Count? && StepKey(limits, step) == key then 1 else 0, now)
  {
    if step.Count? {
      CountStandsAt(limits, s, step, key, hits, now);
    }
  }

  lemma CountStandsAt(limits: Limits, s: State, step: Step, key: Key, hits: nat, now: real)
    requires step.Count? && StandsAt(s.store, key, hits, step.now)
    requires ExpiresLate(limits, Perform(limits, s, step), now) && now < WindowEnd(limits, key)
    ensures StandsAt(Perform(limits, s, step).store, key, hits + if StepKey(limits, step) == key then 1 else 0, now)
  {
  }

  /** No key expires inside its own window: while the window lasts, its counter has counted every
      request of the window. */
  lemma {:induction false} CountsEveryHit(limits: Limits, steps: seq<Step>, key: Key, now: real)
    requires Clocked(steps) && (steps == [] || steps[|steps| - 1].now <= now)
    requires now < WindowEnd(limits, key)
    ensures StandsAt(Run(limits, steps).store, key, Hits(limits, steps, key), now)
  {
    if steps != [] {
      var front, step := steps[..|steps| - 1], steps[|steps| - 1];
      CountsEveryHit(limits, front, key, step.now);
      NoEarlyExpiry(limits, front, step.now);
      NoEarlyExpiry(limits, steps, now);
      StepStandsAt(limits, Run(limits, front), step, key, Hits(limits, front, key), now);
    }
  }

  /** The answer is read off the counter. */
  lemma AnswerIs(limits: Limits, steps: seq<Step>)
    requires steps != [] && steps[|steps| - 1].Count?
    ensures var step := steps[|steps| - 1];
            var store := Run(limits, steps).store;
            && StepKey(limits, step) in store
            && (AllowsLast(limits, steps) <==> store[StepKey(limits, step)].count <= limits(step.name).maxRequests)
  {
  }

  lemma {:induction false} KeyAdmits(limits: Limits, steps: seq<Step>, key: Key)
    requires Clocked(steps)
    ensures Admissions(limits, steps, key) == Smaller(Hits(limits, steps, key), limits(key.name).maxRequests)
  {
    if steps != [] {
      KeyAdmits(limits, steps[..|steps| - 1], key);
      if CountsKey(limits, steps, key) {
        var step := steps[|steps| - 1];
        InsideWindow(limits(step.name), step.now);
        CountsEveryHit(limits, steps, key, step.now);
        AnswerIs(limits, steps);
      }
    }
  }

  function Smaller(m: nat, n: nat): nat { if m <= n then m else n }

  // ---- The requests of one identity ----------------------------------------------------------

  /** A request of the identity under the named limit, in the window that starts window times the
      length after the epoch. */
  predicate IsRequest(limits: Limits, step: Step, name: string, identity: string, window: int) {
    var size := limits(name).windowSeconds;
    && step.Count? && step.name == name && step.identity == identity
    && (window * size) as real <= step.now < ((window + 1) * size) as real
  }

  function Requests(limits: Limits, steps: seq<Step>, name: string, identity: string, window: int): nat {
    if steps == [] then 0
    else
      Requests(limits, steps[..|steps| - 1], name, identity, window)
      + if IsRequest(limits, steps[|steps| - 1], name, identity, window) then 1 else 0
  }

  /** Those of them that are allowed. */
  function Allowed(limits: Limits, steps: seq<Step>, name: string, identity: string, window: int): nat {
    if steps == [] then 0
    else
      Allowed(limits, steps[..|steps| - 1], name, identity, window)
      + if IsRequest(limits, steps[|steps| - 1], name, identity, window) && AllowsLast(limits, steps) then 1 else 0
  }

  lemma IndexIff(limit: Limit, now: real, window: int)
    ensures WindowIndex(limit, now) == window
       <==> (window * limit.windowSeconds) as real <= now < ((window + 1) * limit.windowSeconds) as real
  {
    var size, w := limit.windowSeconds, WindowIndex(limit, now);
    InsideWindow(limit, now);
    assert (w + 1) * size == w * size + size && (window + 1) * size == window * size + size;
    if (window * size) as real <= now < ((window + 1) * size) as real {
      Ratio(w, window + 1, size);
      Ratio(window, w + 1, size);
    }
  }

  lemma IsRequestIff(limits: Limits, steps: seq<Step>, name: string, identity: string, window: int)
    requires steps != []
    ensures IsRequest(limits, steps[|steps| - 1], name, identity, window)
       <==> CountsKey(limits, steps, Key(name, identity, window))
  {
    var step := steps[|steps| - 1];
    if step.Count? && step.name == name {
      IndexIff(limits(name), step.now, window);
    }
  }

  lemma {:induction false} RequestsAreHits(limits: Limits, steps: seq<Step>, name: string, identity: string,
                                           window: int)
    ensures Requests(limits, steps, name, identity, window) == Hits(limits, steps, Key(name, identity, window))
    ensures Allowed(limits, steps, name, identity, window) == Admissions(limits, steps, Key(name, identity, window))
  {
    if steps != [] {
      RequestsAreHits(limits, steps[..|steps| - 1], name, identity, window);
      IsRequestIff(limits, steps, name, identity, window);
    }
  }

  /** In each window, exactly the smaller of an identity's requests and the limit are allowed. */
  lemma WindowAdmits(limits: Limits, steps: seq<Step>, name: string, identity: string, window: int)
    requires Clocked(steps)
    ensures Allowed(limits, steps, name, identity, window)
         == Smaller(Requests(limits, steps, name, identity, window), limits(name).maxRequests)
  {
    RequestsAreHits(limits, steps, name, identity, window);
    KeyAdmits(limits, steps, Key(name, identity, window));
  }

  // ---- Other identities and other limits -------------------------------------------------------

  predicate Concerns(step: Step, name: string, identity: string) {
    match step
    case Count(n, i, _) => n == name && i == identity
    case SetExpiry(key, _) => key.name == name && key.identity == identity
  }

  /** The steps that concern an identity under a limit. */
  function Own(steps: seq<Step>, name: string, identity: string): seq<Step> {
    if steps == [] then []
    else
      Own(steps[..|steps| - 1], name, identity)
      + if Concerns(steps[|steps| - 1], name, identity) then [steps[|steps| - 1]] else []
  }

  /** The states agree on a counter and on its expiries still to be set. */
  predicate SameAt(a: State, b: State, key: Key) {
    && (key in a.store <==> key in b.store) && (key in a.store ==> a.store[key] == b.store[key])
    && a.pending[key] == b.pending[key]
  }

  lemma SameCount(limits: Limits, a: State, b: State, step: Step, key: Key)
    requires SameAt(a, b, key) && step.Count?
    ensures StepKey(limits, step) == key ==> SameAt(Perform(limits, a, step), Perform(limits, b, step), key)
    ensures StepKey(limits, step) != key ==> SameAt(Perform(limits, a, step), b, key)
  {
  }

  lemma SameExpiry(limits: Limits, a: State, b: State, step: Step, key: Key)
    requires SameAt(a, b, key) && step.SetExpiry?
    ensures step.key == key ==> SameAt(Perform(limits, a, step), Perform(limits, b, step), key)
    ensures step.key != key ==> SameAt(Perform(limits, a, step), b, key)
  {
  }

  lemma OtherKey(limits: Limits, b: State, step: Step, key: Key)
    requires if step.Count? then StepKey(limits, step) != key else step.key != key
    ensures SameAt(Perform(limits, b, step), b, key)
  {
  }

  /** A step that concerns an identity under a limit acts on its keys alike; any other leaves them alone. */
  lemma ConcernedStep(limits: Limits, a: State, b: State, step: Step, key: Key)
    requires SameAt(a, b, key)
    ensures SameAt(Perform(limits, a, step),
                   if Concerns(step, key.name, key.identity) then Perform(limits, b, step) else b, key)
  {
    if step.Count? {
      SameCount(limits, a, b, step, key);
    } else {
      SameExpiry(limits, a, b, step, key);
    }
    if if step.Count? then StepKey(limits, step) != key else step.key != key {
      OtherKey(limits, b, step, key);
    }
  }

  ghost predicate OwnDecides(limits: Limits, steps: seq<Step>, key: Key) {
    SameAt(Run(limits, steps), Run(limits, Own(steps, key.name, key.identity)), key)
  }

  lemma {:induction false} OwnDecide(limits: Limits, steps: seq<Step>, key: Key)
    ensures OwnDecides(limits, steps, key)
  {
    if steps != [] {
      var front, step := steps[..|steps| - 1], steps[|steps| - 1];
      OwnDecide(limits, front, key);
      OwnNext(limits, front, step, key);
      assert steps == front + [step];
    }
  }

  lemma OwnNext(limits: Limits, front: seq<Step>, step: Step, key: Key)
    requires OwnDecides(limits, front, key)
    ensures OwnDecides(limits, front + [step], key)
  {
    RunSnoc(limits, front, step);
    OwnRun(limits, front, step, key);
    ConcernedStep(limits, Run(limits, front), Run(limits, Own(front, key.name, key.identity)), step, key);
  }

  lemma OwnRun(limits: Limits, front: seq<Step>, step: Step, key: Key)
    ensures var own := Run(limits, Own(front, key.name, key.identity));
            Run(limits, Own(front + [step], key.name, key.identity))
            == if Concerns(step, key.name, key.identity) then Perform(limits, own, step) else own
  {
    OwnSnoc(front, step, key.name, key.identity);
    RunSnoc(limits, Own(front, key.name, key.identity), step);
  }

  lemma OwnSnoc(front: seq<Step>, step: Step, name: string, identity: string)
    ensures Own(front + [step], name, identity)
         == if Concerns(step, name, identity) then Own(front, name, identity) + [step] else Own(front, name, identity)
  {
    assert (front + [step])[..|front|] == front;
  }

  lemma RunSnoc(limits: Limits, steps: seq<Step>, step: Step)
    ensures Run(limits, steps + [step]) == Perform(limits, Run(limits, steps), step)
  {
    assert (steps + [step])[..|steps|] == steps;
  }

  lemma SameAnswer(limits: Limits, a: State, b: State, step: Step)
    requires step.Count? && SameAt(a, b, StepKey(limits, step))
    ensures Answer(limits, a, step) == Answer(limits, b, step)
  {
  }

  /** What a request is told depends on no request under another identity or another limit. */
  lemma OthersDoNotMatter(limits: Limits, steps: seq<Step>, step: Step)
    requires step.Count?
    ensures Answer(limits, Run(limits, steps), step)
         == Answer(limits, Run(limits, Own(steps, step.name, step.identity)), step)
  {
    OwnDecide(limits, steps, StepKey(limits, step));
    SameAnswer(limits, Run(limits, steps), Run(limits, Own(steps, step.name, step.identity)), step);
  }

  // ---- Any interval of one window length -----------------------------------------------------

  /** The requests of an identity allowed at times from lo to hi, both included. */
  function AllowedBetween(limits: Limits, steps: seq<Step>, name: string, identity: string, lo: real, hi: real): nat {
    if steps == [] then 0
    else
      var last := steps[|steps| - 1];
      AllowedBetween(limits, steps[..|steps| - 1], name, identity, lo, hi)
      + if AllowsLast(limits, steps) && last.name == name && last.identity == identity && lo <= last.now <= hi
        then 1 else 0
  }

  lemma IndexStep(limit: Limit, lo: real, now: real)
    requires lo <= now <= lo + limit.windowSeconds as real
    ensures WindowIndex(limit, now) == WindowIndex(limit, lo) || WindowIndex(limit, now) == WindowIndex(limit, lo) + 1
  {
    assert lo.Floor <= now.Floor <= lo.Floor + limit.windowSeconds;
    QuotientStep(lo.Floor, now.Floor, limit.windowSeconds);
  }

  lemma QuotientStep(m: int, n: int, size: int)
    requires size > 0 && m <= n <= m + size
    ensures m / size <= n / size <= m / size + 1
  {
    var q, p := m / size, n / size;
    assert m == q * size + m % size && n == p * size + n % size;
    assert (q + 2) * size == q * size + 2 * size && (p + 1) * size == p * size + size;
    Ratio(p, q + 2, size);
    Ratio(q, p + 1, size);
  }

  lemma Ratio(a: int, b: int, k: int)
    requires k > 0 && a * k < b * k
    ensures a < b
  {
  }

  lemma {:induction false} BetweenTwoWindows(limits: Limits, steps: seq<Step>, name: string, identity: string,
                                             lo: real, hi: real)
    requires hi <= lo + limits(name).windowSeconds as real
    ensures var first := WindowKey(limits(name), identity, lo);
            AllowedBetween(limits, steps, name, identity, lo, hi)
              <= Admissions(limits, steps, first) + Admissions(limits, steps, first.(window := first.window + 1))
  {
    if steps != [] {
      var last := steps[|steps| - 1];
      BetweenTwoWindows(limits, steps[..|steps| - 1], name, identity, lo, hi);
      if lo <= last.now <= hi {
        IndexStep(limits(name), lo, last.now);
      }
    }
  }

  /** Any interval of one window length admits at most twice the limit. */
  lemma IntervalAdmitsTwiceAtMost(limits: Limits, steps: seq<Step>, name: string, identity: string, lo: real, hi: real)
    requires Clocked(steps) && hi <= lo + limits(name).windowSeconds as real
    ensures AllowedBetween(limits, steps, name, identity, lo, hi) <= 2 * limits(name).maxRequests
  {
    var first := WindowKey(limits(name), identity, lo);
    BetweenTwoWindows(limits, steps, name, identity, lo, hi);
    KeyAdmits(limits, steps, first);
    KeyAdmits(limits, steps, first.(window := first.window + 1));
  }

  // ---- The text of a key -----------------------------------------------------------------------

  const KEY_PREFIX := "fp:ratelimit"

  /** The key as Redis has it; windows after the epoch have no sign. */
  function KeyText(key: Key): string
    requires key.window >= 0
  {
    KEY_PREFIX + ":" + key.name + ":" + key.identity + ":" + Decimal(key.window)
  }

  lemma {:induction false} DecimalHasNoColon(n: nat)
    ensures ':' !in Decimal(n)
    decreases n
  {
    DigitRoundTrip(n % 10);
    if n >= 10 {
      DecimalHasNoColon(n / 10);
    }
  }

  lemma DecimalInjective(m: nat, n: nat)
    requires Decimal(m) == Decimal(n)
    ensures m == n
  {
    DecimalRoundTrip(m, "");
    DecimalRoundTrip(n, "");
  }

  /** The text tells counters apart, as long as no limit has a colon in its name; identities may. */
  lemma KeyTextIff(a: Key, b: Key)
    requires a.window >= 0 && b.window >= 0 && ':' !in a.name && ':' !in b.name
    ensures KeyText(a) == KeyText(b) <==> a == b
  {
    if KeyText(a) == KeyText(b) {
      var p, q := a.identity + ":" + Decimal(a.window), b.identity + ":" + Decimal(b.window);
      WithoutPrefix(a);
      WithoutPrefix(b);
      FirstSeparator(a.name, p, b.name, q, ':');
      DecimalHasNoColon(a.window);
      DecimalHasNoColon(b.window);
      LastSeparator(a.identity, Decimal(a.window), b.identity, Decimal(b.window), ':');
      DecimalInjective(a.window, b.window);
    }
  }

  lemma WithoutPrefix(key: Key)
    requires key.window >= 0
    ensures KeyText(key)[|KEY_PREFIX| + 1..] == key.name + ":" + (key.identity + ":" + Decimal(key.window))
  {
  }
}
