/**
 The enclave's public key is fetched by one caller at a time and shared: callers that find a fetch under way wait for
 it, and a fetched key is kept for a while. Modelled as the interleaving of any number of callers, one critical
 section at a time.
 */
module Handshake {
  import opened Wrappers

  const DEFAULT_TTL: int := 300_000_000_000

  type Outcome = Result<string, string>

  /** A fetch under way or over; who leads it is kept for the record. */
  datatype Call = Call(leader: nat, result: Option<Outcome>, done: bool)

  /** The fields under the mutex. Calls are numbered in order of creation. */
  datatype Service = Service(ttl: int, cachedPublicKey: string, cachedAt: int, inFlight: Option<nat>, calls: seq<Call>)

  // --- The critical sections.

  datatype Entry = Hit(key: string) | Join(call: nat) | Lead(call: nat)

  function Enter(s: Service, now: int, caller: nat): (Service, Entry) {
    if s.cachedPublicKey != "" && now - s.cachedAt < s.ttl then (s, Hit(s.cachedPublicKey))
    else if s.inFlight.Some? then (s, Join(s.inFlight.value))
    else (s.(inFlight := Some(|s.calls|), calls := s.calls + [Call(caller, None, false)]), Lead(|s.calls|))
  }

  function Publish(s: Service, outcome: Outcome, now: int): Service {
    if outcome.Ok? then s.(cachedPublicKey := outcome.value, cachedAt := now, inFlight := None) else s.(inFlight := None)
  }

  function Forget(s: Service): Service {
    s.(cachedPublicKey := "", cachedAt := 0)
  }

  class EnclaveHandshakeService {
    var ttl: int
    var cachedPublicKey: string
    var cachedAt: int
    var inFlight: Option<nat>
    var calls: seq<Call>

    ghost function View(): Service
      reads this
    {
      Service(ttl, cachedPublicKey, cachedAt, inFlight, calls)
    }

    constructor (wanted: int)
      ensures View() == Service(if wanted <= 0 then DEFAULT_TTL else wanted, "", 0, None, [])
      ensures ttl > 0
    {
      ttl := if wanted <= 0 then DEFAULT_TTL else wanted;
      cachedPublicKey, cachedAt, inFlight, calls := "", 0, None, [];
    }

    method BeginGetPublicKey(now: int, caller: nat) returns (entry: Entry)
      modifies this
      ensures (View(), entry) == Enter(old(View()), now, caller)
    {
      if cachedPublicKey != "" && now - cachedAt < ttl {
        return Hit(cachedPublicKey);
      }
      if inFlight.Some? {
        return Join(inFlight.value);
      }
      entry := Lead(|calls|);
      inFlight := Some(|calls|);
      calls := calls + [Call(caller, None, false)];
    }

    method EndFetch(outcome: Outcome, now: int)
      modifies this
      ensures View() == Publish(old(View()), outcome, now)
    {
      if outcome.Ok? {
        cachedPublicKey := outcome.value;
        cachedAt := now;
      }
      inFlight := None;
    }

    method Invalidate()
      modifies this
      ensures View() == Forget(old(View()))
    {
      cachedPublicKey := "";
      cachedAt := 0;
    }
  }

  // --- Interleavings.

  /** How a caller got its outcome; a cache hit remembers which call the key came from and how old it was. */
  datatype Via = Cached(source: nat, age: int) | Joined(call: nat) | Led(call: nat)

  datatype Pc =
    | Idle
    | Waiting(call: nat)
    | Fetching(call: nat)
    | Fetched(call: nat, outcome: Outcome)
    | Published(call: nat, outcome: Outcome)
    | Stored(call: nat, outcome: Outcome)
    | Returned(via: Via, outcome: Outcome)

  /** The service, each caller's position, and which call the cached key came from. */
  datatype System = System(service: Service, pcs: seq<Pc>, source: nat)

  datatype Step =
    | Get(t: nat, now: int)
    | FetchReturns(t: nat, outcome: Outcome)
    | Release(t: nat, now: int)
    | StoreResult(t: nat)
    | Wake(t: nat)
    | Done(t: nat)
    | Invalidate

  predicate Enabled(s: System, step: Step) {
    step.Invalidate? ||
    (step.t < |s.pcs| &&
     match step
     case Get(t, _) => s.pcs[t].Idle?
     case FetchReturns(t, _) => s.pcs[t].Fetching?
     case Release(t, _) => s.pcs[t].Fetched?
     case StoreResult(t) => s.pcs[t].Published? && s.pcs[t].call < |s.service.calls|
     case Done(t) => s.pcs[t].Stored? && s.pcs[t].call < |s.service.calls|
     case Wake(t) => s.pcs[t].Waiting? && s.pcs[t].call < |s.service.calls| && s.service.calls[s.pcs[t].call].done
                     && s.service.calls[s.pcs[t].call].result.Some?
     case Invalidate => true)
  }

  function Take(s: System, step: Step): System
    requires Enabled(s, step)
  {
    match step
    case Get(t, now) =>
      var (service, entry) := Enter(s.service, now, t);
      var pc := match entry
        case Hit(key) => Returned(Cached(s.source, now - s.service.cachedAt), Ok(key))
        case Join(call) => Waiting(call)
        case Lead(call) => Fetching(call);
      s.(service := service, pcs := s.pcs[t := pc])
    case FetchReturns(t, outcome) => s.(pcs := s.pcs[t := Fetched(s.pcs[t].call, outcome)])
    case Release(t, now) =>
      var pc := s.pcs[t];
      s.(service := Publish(s.service, pc.outcome, now), pcs := s.pcs[t := Published(pc.call, pc.outcome)],
         source := if pc.outcome.Ok? then pc.call else s.source)
    case StoreResult(t) =>
      var pc := s.pcs[t];
      var calls := s.service.calls[pc.call := s.service.calls[pc.call].(result := Some(pc.outcome))];
      s.(service := s.service.(calls := calls), pcs := s.pcs[t := Stored(pc.call, pc.outcome)])
    case Done(t) =>
      var pc := s.pcs[t];
      var calls := s.service.calls[pc.call := s.service.calls[pc.call].(done := true)];
      s.(service := s.service.(calls := calls), pcs := s.pcs[t := Returned(Led(pc.call), pc.outcome)])
    case Wake(t) =>
      var call := s.pcs[t].call;
      s.(pcs := s.pcs[t := Returned(Joined(call), s.service.calls[call].result.value)])
    case Invalidate => s.(service := Forget(s.service))
  }

  // --- What every interleaving keeps.

  predicate Leads(pc: Pc, call: nat) {
    (pc.Fetching? || pc.Fetched? || pc.Published? || pc.Stored?) && pc.call == call
  }

  /** The leader of a call has its outcome and has made it known. */
  predicate Released(s: System, call: nat, outcome: Outcome) {
    && call < |s.service.calls|
    && var leader := s.service.calls[call].leader;
       && leader < |s.pcs|
       && (s.pcs[leader] == Published(call, outcome) || s.pcs[leader] == Stored(call, outcome) || s.pcs[leader] == Returned(Led(call), outcome))
  }

  predicate CallerOk(s: System, t: nat)
    requires t < |s.pcs|
  {
    var pc, calls := s.pcs[t], s.service.calls;
    match pc
    case Idle => true
    case Waiting(call) => call < |calls|
    case Fetching(call) => call < |calls| && calls[call].leader == t && s.service.inFlight == Some(call)
    case Fetched(call, _) => call < |calls| && calls[call].leader == t && s.service.inFlight == Some(call)
    case Published(call, _) => call < |calls| && calls[call].leader == t
    case Stored(call, outcome) => call < |calls| && calls[call].leader == t && calls[call].result == Some(outcome)
    case Returned(Led(call), outcome) => call < |calls| && calls[call] == Call(t, Some(outcome), true)
    case Returned(Joined(call), outcome) => call < |calls| && calls[call].done && calls[call].result == Some(outcome)
    case Returned(Cached(source, age), outcome) => age < s.service.ttl && Released(s, source, outcome)
  }

  predicate CallOk(s: System, c: nat)
    requires c < |s.service.calls|
  {
    var call := s.service.calls[c];
    && call.leader < |s.pcs|
    && (if call.done then call.result.Some? && s.pcs[call.leader] == Returned(Led(c), call.result.value) else Leads(s.pcs[call.leader], c))
  }

  predicate ServiceOk(s: System) {
    && (s.service.inFlight.Some? ==>
          && s.service.inFlight.value < |s.service.calls|
          && var leader := s.service.calls[s.service.inFlight.value].leader;
             leader < |s.pcs| && (s.pcs[leader].Fetching? || s.pcs[leader].Fetched?) && s.pcs[leader].call == s.service.inFlight.value)
    && (s.service.cachedPublicKey != "" ==> Released(s, s.source, Ok(s.service.cachedPublicKey)))
  }

  ghost predicate Inv(s: System) {
    && ServiceOk(s)
    && (forall t :: 0 <= t < |s.pcs| ==> CallerOk(s, t))
    && (forall c :: 0 <= c < |s.service.calls| ==> CallOk(s, c))
  }

  function Start(ttl: int, callers: nat): System {
    System(Service(ttl, "", 0, None, []), seq(callers, i => Idle), 0)
  }

  lemma StartHolds(ttl: int, callers: nat)
    ensures Inv(Start(ttl, callers))
  {
  }

  /** What is released stays released. */
  lemma ReleasedStays(s: System, step: Step, call: nat, outcome: Outcome)
    requires Inv(s) && Enabled(s, step) && Released(s, call, outcome)
    ensures Released(Take(s, step), call, outcome)
  {
    assert CallOk(s, call);
    if !step.Invalidate? { assert CallerOk(s, step.t); }
  }

  lemma StepKeepsService(s: System, step: Step)
    requires Inv(s) && Enabled(s, step)
    ensures ServiceOk(Take(s, step))
  {
    hide Released;
    if s.service.cachedPublicKey != "" { ReleasedStays(s, step, s.source, Ok(s.service.cachedPublicKey)); }
    if step.Release? { assert CallerOk(s, step.t); JustReleased(s, step); }
    if !step.Invalidate? { assert CallerOk(s, step.t); }
  }

  lemma JustReleased(s: System, step: Step)
    requires Inv(s) && Enabled(s, step) && step.Release?
    ensures Released(Take(s, step), s.pcs[step.t].call, s.pcs[step.t].outcome)
  {
    assert CallerOk(s, step.t);
  }

  lemma StepKeepsMover(s: System, step: Step)
    requires Inv(s) && Enabled(s, step) && !step.Invalidate?
    ensures CallerOk(Take(s, step), step.t)
  {
    hide Released;
    assert CallerOk(s, step.t);
    if s.service.cachedPublicKey != "" { ReleasedStays(s, step, s.source, Ok(s.service.cachedPublicKey)); }
  }

  lemma StepKeepsOther(s: System, step: Step, t: nat)
    requires Inv(s) && Enabled(s, step) && t < |s.pcs| && (step.Invalidate? || t != step.t)
    ensures CallerOk(Take(s, step), t)
  {
    hide Released;
    assert CallerOk(s, t);
    if !step.Invalidate? { assert CallerOk(s, step.t); }
    if s.pcs[t].Returned? && s.pcs[t].via.Joined? { assert CallOk(s, s.pcs[t].via.call); }
    if s.pcs[t].Returned? && s.pcs[t].via.Cached? { ReleasedStays(s, step, s.pcs[t].via.source, s.pcs[t].outcome); }
  }

  lemma StepKeepsCall(s: System, step: Step, c: nat)
    requires Inv(s) && Enabled(s, step) && c < |Take(s, step).service.calls|
    ensures CallOk(Take(s, step), c)
  {
    if c < |s.service.calls| { assert CallOk(s, c); }
    if !step.Invalidate? { assert CallerOk(s, step.t); }
  }

  lemma StepHolds(s: System, step: Step)
    requires Inv(s) && Enabled(s, step)
    ensures Inv(Take(s, step))
  {
    hide ServiceOk, CallerOk, CallOk, Take, Enabled;
    var next := Take(s, step);
    StepKeepsService(s, step);
    SameCallers(s, step);
    forall t | 0 <= t < |next.pcs| ensures CallerOk(next, t) {
      if !step.Invalidate? && t == step.t { StepKeepsMover(s, step); } else { StepKeepsOther(s, step, t); }
    }
    forall c | 0 <= c < |next.service.calls| ensures CallOk(next, c) { StepKeepsCall(s, step, c); }
  }

  lemma SameCallers(s: System, step: Step)
    requires Enabled(s, step)
    ensures |Take(s, step).pcs| == |s.pcs|
  {
  }

  /** The states of a run, each step enabled where it is taken. */
  ghost predicate Runs(states: seq<System>, steps: seq<Step>) {
    |states| == |steps| + 1 && forall i :: 0 <= i < |steps| ==> Moves(states[i], steps[i], states[i + 1])
  }

  predicate Moves(s: System, step: Step, next: System) {
    Enabled(s, step) && next == Take(s, step)
  }

  lemma {:induction false} EveryStateHolds(states: seq<System>, steps: seq<Step>, ttl: int, callers: nat, i: nat)
    requires Runs(states, steps) && states[0] == Start(ttl, callers) && i < |states|
    ensures Inv(states[i])
    decreases i
  {
    hide Inv, Take, Enabled;
    if i == 0 {
      StartHolds(ttl, callers);
    } else {
      EveryStateHolds(states, steps, ttl, callers, i - 1);
      assert Moves(states[i - 1], steps[i - 1], states[i]);
      StepHolds(states[i - 1], steps[i - 1]);
    }
  }

  /** At no time are two fetches in flight. */
  lemma OneFetchAtATime(states: seq<System>, steps: seq<Step>, ttl: int, callers: nat, i: nat, t: nat, u: nat)
    requires Runs(states, steps) && states[0] == Start(ttl, callers) && i < |states| && t < |states[i].pcs| && u < |states[i].pcs|
    requires states[i].pcs[t].Fetching? && states[i].pcs[u].Fetching?
    ensures t == u
  {
    EveryStateHolds(states, steps, ttl, callers, i);
    assert CallerOk(states[i], t) && CallerOk(states[i], u);
  }

  /** A caller that waited returns what the caller that fetched for it returned. */
  lemma WaiterSharesOutcome(states: seq<System>, steps: seq<Step>, ttl: int, callers: nat, i: nat, t: nat)
    requires Runs(states, steps) && states[0] == Start(ttl, callers) && i < |states| && t < |states[i].pcs|
    requires states[i].pcs[t].Returned? && states[i].pcs[t].via.Joined?
    ensures var s := states[i];
            var call := s.pcs[t].via.call;
            && call < |s.service.calls| && s.service.calls[call].leader < callers == |s.pcs|
            && s.pcs[s.service.calls[call].leader] == Returned(Led(call), s.pcs[t].outcome)
  {
    EveryStateHolds(states, steps, ttl, callers, i);
    assert CallerOk(states[i], t);
    assert CallOk(states[i], states[i].pcs[t].via.call);
    CallersStay(states, steps, i);
  }

  lemma {:induction false} CallersStay(states: seq<System>, steps: seq<Step>, i: nat)
    requires Runs(states, steps) && i < |states|
    ensures |states[i].pcs| == |states[0].pcs|
    decreases i
  {
    hide Take, Enabled;
    if i > 0 {
      CallersStay(states, steps, i - 1);
      assert Moves(states[i - 1], steps[i - 1], states[i]);
      SameCallers(states[i - 1], steps[i - 1]);
    }
  }

  /** Step k released a fetched key at a time. */
  predicate ReleasesAt(states: seq<System>, steps: seq<Step>, k: nat, source: nat, key: string, when: int)
    requires |states| == |steps| + 1 && k < |steps|
  {
    steps[k].Release? && steps[k].t < |states[k].pcs| && states[k].pcs[steps[k].t] == Fetched(source, Ok(key)) && steps[k].now == when
  }

  /** A key in the cache was put there by an earlier release of its source call, at the time noted. */
  lemma {:induction false} CachedKeyWasReleased(states: seq<System>, steps: seq<Step>, ttl: int, callers: nat, i: nat) returns (k: nat)
    requires Runs(states, steps) && states[0] == Start(ttl, callers) && i < |states| && states[i].service.cachedPublicKey != ""
    ensures k < i && ReleasesAt(states, steps, k, states[i].source, states[i].service.cachedPublicKey, states[i].service.cachedAt)
    decreases i
  {
    assert i > 0;
    assert Moves(states[i - 1], steps[i - 1], states[i]);
    if steps[i - 1].Release? && states[i - 1].pcs[steps[i - 1].t].outcome.Ok? {
      k := i - 1;
    } else {
      k := CachedKeyWasReleased(states, steps, ttl, callers, i - 1);
    }
  }

  lemma {:induction false} TtlStays(states: seq<System>, steps: seq<Step>, i: nat)
    requires Runs(states, steps) && i < |states|
    ensures states[i].service.ttl == states[0].service.ttl
    decreases i
  {
    if i > 0 {
      TtlStays(states, steps, i - 1);
      assert Moves(states[i - 1], steps[i - 1], states[i]);
    }
  }

  /** A call served from the cache gets a key that the caller who fetched it released, in an earlier step, less than the time to live before. */
  lemma CacheHitIsFresh(states: seq<System>, steps: seq<Step>, ttl: int, callers: nat, j: nat) returns (k: nat)
    requires Runs(states, steps) && states[0] == Start(ttl, callers) && j < |steps|
    requires steps[j].Get? && states[j + 1].pcs[steps[j].t].Returned?
    ensures k < j && steps[k].Release?
    ensures var hit := states[j + 1].pcs[steps[j].t];
            && hit.outcome.Ok? && hit.via.Cached?
            && ReleasesAt(states, steps, k, hit.via.source, hit.outcome.value, steps[k].now)
            && steps[j].now - steps[k].now < ttl
  {
    assert Moves(states[j], steps[j], states[j + 1]);
    TtlStays(states, steps, j);
    k := CachedKeyWasReleased(states, steps, ttl, callers, j);
  }

  /** From step k on up to step j nothing is invalidated and no key is released; fetches may fail. */
  ghost predicate Undisturbed(states: seq<System>, steps: seq<Step>, k: nat, j: nat)
    requires k <= j <= |steps| < |states|
  {
    forall i :: k <= i < j ==> !ReleasesKey(states[i], steps[i]) && !steps[i].Invalidate?
  }

  predicate ReleasesKey(s: System, step: Step) {
    step.Release? && step.t < |s.pcs| && s.pcs[step.t].Fetched? && s.pcs[step.t].outcome.Ok?
  }

  lemma {:induction false} KeyStays(states: seq<System>, steps: seq<Step>, k: nat, j: nat)
    requires Runs(states, steps) && k <= j <= |steps| && Undisturbed(states, steps, k, j)
    ensures states[j].service.cachedPublicKey == states[k].service.cachedPublicKey && states[j].service.cachedAt == states[k].service.cachedAt
    ensures states[j].source == states[k].source
    decreases j - k
  {
    if k < j {
      KeyStays(states, steps, k, j - 1);
      assert Moves(states[j - 1], steps[j - 1], states[j]);
    }
  }

  /** A key once released is served, without another fetch, to every caller that asks within the time to live, until the next key is released or the cache invalidated; a failing fetch does not disturb it. */
  lemma FreshKeyIsServed(states: seq<System>, steps: seq<Step>, ttl: int, callers: nat, k: nat, j: nat, source: nat, key: string)
    requires Runs(states, steps) && states[0] == Start(ttl, callers) && k < j < |steps| && key != ""
    requires steps[k].Release? && ReleasesAt(states, steps, k, source, key, steps[k].now) && Undisturbed(states, steps, k + 1, j)
    requires steps[j].Get? && steps[j].now - steps[k].now < ttl
    ensures states[j + 1].pcs == states[j].pcs[steps[j].t := Returned(Cached(source, steps[j].now - steps[k].now), Ok(key))]
    ensures states[j + 1].service == states[j].service
  {
    hide Undisturbed;
    TtlStays(states, steps, j);
    KeyStays(states, steps, k + 1, j);
    assert Moves(states[k], steps[k], states[k + 1]);
    assert Moves(states[j], steps[j], states[j + 1]);
  }

  /** The next step of the leader of a call that is not done. */
  function LeaderStep(s: System, call: nat): Step
    requires call < |s.service.calls| && s.service.calls[call].leader < |s.pcs|
  {
    var leader := s.service.calls[call].leader;
    match s.pcs[leader]
    case Fetched(_, _) => Release(leader, 0)
    case Published(_, _) => StoreResult(leader)
    case Stored(_, _) => Done(leader)
    case _ => FetchReturns(leader, Err(""))
  }

  /** No waiter is stranded: it can wake up, or the leader of its call can move. */
  lemma NoWaiterStranded(states: seq<System>, steps: seq<Step>, ttl: int, callers: nat, i: nat, t: nat)
    requires Runs(states, steps) && states[0] == Start(ttl, callers) && i < |states| && t < |states[i].pcs| && states[i].pcs[t].Waiting?
    ensures var s := states[i];
            var call := s.pcs[t].call;
            && call < |s.service.calls| && s.service.calls[call].leader < |s.pcs|
            && (Enabled(s, Wake(t)) || Enabled(s, LeaderStep(s, call)))
  {
    EveryStateHolds(states, steps, ttl, callers, i);
    assert CallerOk(states[i], t);
    assert CallOk(states[i], states[i].pcs[t].call);
  }

  // --- Invalidation.

  /** After invalidation nothing is served from the cache before a fetch is released. */
  lemma {:induction false} NothingCachedUntilReleased(states: seq<System>, steps: seq<Step>, i: nat, j: nat)
    requires Runs(states, steps) && i < j < |states| && steps[i].Invalidate?
    requires forall k :: i < k < j ==> !steps[k].Release?
    ensures states[j].service.cachedPublicKey == ""
    decreases j
  {
    assert Moves(states[j - 1], steps[j - 1], states[j]);
    if i < j - 1 { NothingCachedUntilReleased(states, steps, i, j - 1); }
  }

  /** Whatever is cached, or still to be cached, comes from a call numbered at least n. */
  predicate NewerThan(s: System, n: nat) {
    && (s.service.cachedPublicKey != "" ==> s.source >= n)
    && (s.service.inFlight.Some? && s.service.inFlight.value < n ==> NothingToCache(s))
    && n <= |s.service.calls|
  }

  /** Nothing is in flight, or what is has already failed, or fetched an empty key. */
  predicate NothingToCache(s: System) {
    s.service.inFlight.None? ||
    (s.service.inFlight.value < |s.service.calls| && s.service.calls[s.service.inFlight.value].leader < |s.pcs| &&
     var pc := s.pcs[s.service.calls[s.service.inFlight.value].leader];
     pc.Fetched? && (pc.outcome.Err? || pc.outcome.value == ""))
  }

  lemma StepKeepsNewer(s: System, step: Step, n: nat)
    requires Inv(s) && Enabled(s, step) && NewerThan(s, n)
    ensures NewerThan(Take(s, step), n)
  {
    hide Released;
    if !step.Invalidate? { assert CallerOk(s, step.t); }
  }

  lemma {:induction false} RunKeepsNewer(states: seq<System>, steps: seq<Step>, n: nat, i: nat)
    requires Runs(states, steps) && i < |states| && Inv(states[0]) && NewerThan(states[0], n)
    ensures Inv(states[i]) && NewerThan(states[i], n)
    decreases i
  {
    hide Inv, Take, Enabled, NewerThan;
    if i > 0 {
      RunKeepsNewer(states, steps, n, i - 1);
      assert Moves(states[i - 1], steps[i - 1], states[i]);
      StepHolds(states[i - 1], steps[i - 1]);
      StepKeepsNewer(states[i - 1], steps[i - 1], n);
    }
  }

  /** However the system goes on after an invalidation, no key of a call from before it is cached. */
  ghost predicate InvalidationIsFinal(s: System) {
    forall states: seq<System>, steps: seq<Step> :: Runs(states, steps) && states[0] == Take(s, Invalidate) ==>
      OldKeyIsGone(states[|steps|], |s.service.calls|)
  }

  predicate OldKeyIsGone(s: System, n: nat) {
    s.service.cachedPublicKey != "" ==> s.source >= n
  }

  /** In every state a run reaches, invalidating is final exactly when no fetch is in flight, or the one in flight has already failed. */
  lemma InvalidationIsFinalIff(s: System)
    requires Inv(s)
    ensures InvalidationIsFinal(s) <==> NothingToCache(s)
  {
    var n, s1 := |s.service.calls|, Take(s, Invalidate);
    StepHolds(s, Invalidate);
    if NothingToCache(s) {
      assert NewerThan(s1, n);
      forall states: seq<System>, steps: seq<Step> | Runs(states, steps) && states[0] == s1 ensures OldKeyIsGone(states[|steps|], n) {
        RunKeepsNewer(states, steps, n, |steps|);
      }
    } else {
      var states, steps := OldFetchReturns(s, "k");
      assert !OldKeyIsGone(states[|steps|], n);
    }
  }

  /** A fetch in flight that has not failed can still fill the cache after the invalidation, in at most two steps, whichever caller leads it. */
  lemma OldFetchReturns(s: System, key: string) returns (states: seq<System>, steps: seq<Step>)
    requires Inv(s) && !NothingToCache(s) && key != ""
    ensures Runs(states, steps) && states[0] == Take(s, Invalidate) && |steps| <= 2
    ensures states[|steps|].service.cachedPublicKey != "" && states[|steps|].source == s.service.inFlight.value < |s.service.calls|
  {
    var leader := s.service.calls[s.service.inFlight.value].leader;
    var s1 := Take(s, Invalidate);
    if s.pcs[leader].Fetching? {
      var s2 := Take(s1, FetchReturns(leader, Ok(key)));
      states, steps := [s1, s2, Take(s2, Release(leader, 0))], [FetchReturns(leader, Ok(key)), Release(leader, 0)];
    } else {
      states, steps := [s1, Take(s1, Release(leader, 0))], [Release(leader, 0)];
    }
  }

  /** With nothing to cache at the invalidation, every key served from the cache afterwards comes from a later call. */
  lemma ServedKeysAreNewer(s: System, states: seq<System>, steps: seq<Step>, j: nat)
    requires Inv(s) && NothingToCache(s) && Runs(states, steps) && states[0] == Take(s, Invalidate) && j < |steps|
    requires steps[j].Get? && states[j + 1].pcs[steps[j].t].Returned?
    ensures var via := states[j + 1].pcs[steps[j].t].via; via.Cached? && via.source >= |s.service.calls|
  {
    StepHolds(s, Invalidate);
    RunKeepsNewer(states, steps, |s.service.calls|, j);
    assert Moves(states[j], steps[j], states[j + 1]);
  }

  /** The shortest such run from the start: the key fetched before is cached after the invalidation and served. */
  lemma InvalidationMissesFetchInFlight(key: string, ttl: int)
    requires key != "" && ttl > 0
    ensures var s0 := Start(ttl, 2);
            && Enabled(s0, Get(0, 0)) && var s1 := Take(s0, Get(0, 0));
            && Enabled(s1, FetchReturns(0, Ok(key))) && var s2 := Take(s1, FetchReturns(0, Ok(key)));
            && Enabled(s2, Invalidate) && var s3 := Take(s2, Invalidate);
            && Enabled(s3, Release(0, 0)) && var s4 := Take(s3, Release(0, 0));
            && Enabled(s4, Get(1, 0)) && Take(s4, Get(1, 0)).pcs[1] == Returned(Cached(0, 0), Ok(key))
  {
  }
}
