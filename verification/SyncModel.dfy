/**
 Event synchronisation as a step system: two snapshot-backed processors, the emitter's watermark, range
 retrievals that read their starting block before they hold the lock, and the client's poll cursor.
 Fetches, saves and responses succeed or fail as the steps say.
 */
module SyncModel {
  import opened Wrappers
  import opened MerkleModel
  import opened SnapshotModel
  import opened Replay

  datatype Watermark = Watermark(value: nat, synced: bool)

  function Advance(w: Watermark, v: nat): Watermark {
    if v <= w.value then w else w.(value := v)
  }

  /** The first call sets the value, later calls only lower it. */
  function SyncFromAtMost(w: Watermark, v: nat): Watermark {
    if !w.synced then Watermark(v, true)
    else if v >= w.value then w
    else w.(value := v)
  }

  datatype Processors = Processors(flavour: Flavour, commitments: Commitments, nullifiers: set<string>)

  /** Both processors take the same events. */
  function ProcessBoth(p: Processors, events: seq<LogEvent>): Processors {
    p.(commitments := ProcessPage(p.flavour, p.commitments, events), nullifiers := p.nullifiers + NullifiersOf(events))
  }

  /** The last two blocks: none until the snapshot is loaded, then a block each processor is known to have reached. */
  datatype Sync = Sync(
    mark: Watermark,
    processors: Processors,
    isReady: bool,
    retrievals: seq<nat>,
    cursor: Option<nat>,
    commitmentsReached: Option<nat>,
    nullifiersReached: Option<nat>)

  /** What the node and the saving of snapshots did during one retrieval. */
  datatype Fetched =
    | NoLastBlock
    | FetchFailed(lastBlock: nat)
    | Events(lastBlock: nat, events: seq<LogEvent>, saved: bool)

  datatype Response = NoResponse | Response(latest: nat, events: seq<LogEvent>, saved: bool)

  datatype Step =
    | LoadCommitments(latest: nat, covered: nat)
    | LoadNullifiers(latest: nat, covered: nat)
    | Init
    | AskRetrieve
    | RunRetrieve(which: nat, fetched: Fetched)
    | StartListener
    | Poll(response: Response)

  function ReachedBy(loaded: Option<nat>, to: nat): Option<nat> {
    if loaded.None? then None else Some(Max(loaded.value, to))
  }

  function Delivered(s: Sync, events: seq<LogEvent>, to: nat): Sync {
    s.(processors := ProcessBoth(s.processors, events),
       commitmentsReached := ReachedBy(s.commitmentsReached, to),
       nullifiersReached := ReachedBy(s.nullifiersReached, to))
  }

  /** One retrieval from a block, under the lock. The watermark is stored only when everything succeeded. */
  function Retrieve(s: Sync, from: nat, fetched: Fetched): Sync {
    match fetched
    case NoLastBlock => s
    case FetchFailed(lastBlock) => s
    case Events(lastBlock, events, saved) =>
      if lastBlock < from then s
      else
        var s' := Delivered(s, events, lastBlock);
        if saved then s'.(mark := s.mark.(value := lastBlock)) else s'
  }

  /** One tick of the client poll. An empty answer is not processed but still moves the cursor. */
  function PollTick(s: Sync, response: Response): Sync
    requires s.cursor.Some?
  {
    if response.NoResponse? then s
    else
      var handed := response.events != [];
      var s1 := if handed then Delivered(s, response.events, response.latest) else s;
      if handed && !response.saved then s1
      else
        var s2 := if handed then s1.(mark := Advance(s1.mark, response.latest)) else s1;
        if response.latest >= s.cursor.value then
          var next := response.latest + 1;
          s2.(cursor := Some(next),
              mark := Advance(s2.mark, next),
              commitmentsReached := ReachedBy(s2.commitmentsReached, response.latest),
              nullifiersReached := ReachedBy(s2.nullifiersReached, response.latest))
        else s2
  }

  /** The services load once each, before Init; Init runs once; the listener starts once, after it. */
  ghost predicate Enabled(s: Sync, step: Step, chain: seq<LogEvent>) {
    match step
    case LoadCommitments(latest, covered) => s.commitmentsReached.None? && !s.isReady && latest <= covered
    case LoadNullifiers(latest, covered) => s.nullifiersReached.None? && !s.isReady && latest <= covered
    case Init => s.commitmentsReached.Some? && s.nullifiersReached.Some? && !s.isReady
    case AskRetrieve => s.commitmentsReached.Some? && s.nullifiersReached.Some?
    case RunRetrieve(which, fetched) =>
      && which < |s.retrievals|
      && (fetched.Events? && s.retrievals[which] <= fetched.lastBlock ==>
            Faithful(fetched.events, chain, s.retrievals[which], fetched.lastBlock))
    case StartListener => s.isReady && s.cursor.None?
    case Poll(response) =>
      && s.cursor.Some?
      && (response.Response? ==> Faithful(response.events, chain, s.cursor.value, response.latest))
  }

  ghost function Take(s: Sync, step: Step, hash: HashFunc, chain: seq<LogEvent>): Sync
    requires Enabled(s, step, chain)
  {
    match step
    case LoadCommitments(latest, covered) =>
      s.(mark := SyncFromAtMost(s.mark, latest),
         processors := s.processors.(commitments := StateAt(s.processors.flavour, hash, chain, covered)),
         commitmentsReached := Some(covered))
    case LoadNullifiers(latest, covered) =>
      s.(mark := SyncFromAtMost(s.mark, latest),
         processors := s.processors.(nullifiers := NullifiersAt(chain, covered)),
         nullifiersReached := Some(covered))
    case Init => s.(isReady := true, retrievals := s.retrievals + [s.mark.value + 1])
    case AskRetrieve => s.(retrievals := s.retrievals + [s.mark.value])
    case RunRetrieve(which, fetched) =>
      Retrieve(s, s.retrievals[which], fetched).(retrievals := s.retrievals[..which] + s.retrievals[which + 1..])
    case StartListener => s.(cursor := Some(s.mark.value + 1))
    case Poll(response) => PollTick(s, response)
  }

  function Start(flavour: Flavour, hash: HashFunc): Sync {
    Sync(Watermark(0, false), Processors(flavour, InitialState(hash), {}), false, [], None, None, None)
  }

  // ---------------------------------------------------------------------------------------------
  // The invariant.

  /** A loaded processor that has reached at least block b - 1 misses nothing below b. */
  predicate PastAll(s: Sync, b: nat) {
    && (s.commitmentsReached.Some? ==> b <= s.commitmentsReached.value + 1)
    && (s.nullifiersReached.Some? ==> b <= s.nullifiersReached.value + 1)
  }

  /** Each loaded processor holds the one-pass state of the block it has reached. */
  ghost predicate InStep(s: Sync, hash: HashFunc, chain: seq<LogEvent>) {
    && (s.commitmentsReached.Some? ==>
          s.processors.commitments == StateAt(s.processors.flavour, hash, chain, s.commitmentsReached.value))
    && (s.nullifiersReached.Some? ==> s.processors.nullifiers == NullifiersAt(chain, s.nullifiersReached.value))
  }

  ghost predicate NoGap(s: Sync, hash: HashFunc, chain: seq<LogEvent>) {
    && InStep(s, hash, chain)
    && PastAll(s, s.mark.value)
    && (s.cursor.None? ==> PastAll(s, s.mark.value + 1))
    && (s.cursor.Some? ==> PastAll(s, s.cursor.value))
    && (forall i :: 0 <= i < |s.retrievals| ==> PastAll(s, s.retrievals[i]))
    && (!s.mark.synced ==> s.commitmentsReached.None? && s.nullifiersReached.None?)
    && (s.commitmentsReached.None? || s.nullifiersReached.None? ==> !s.isReady && s.retrievals == [] && s.cursor.None?)
    && (s.cursor.Some? ==> s.isReady)
  }

  lemma StartHasNoGap(flavour: Flavour, hash: HashFunc, chain: seq<LogEvent>)
    ensures NoGap(Start(flavour, hash), hash, chain)
  {
  }

  /** Delivering a range that starts right after what both processors reached keeps them in step. */
  lemma DeliveredInStep(s: Sync, events: seq<LogEvent>, from: nat, to: nat, hash: HashFunc, chain: seq<LogEvent>)
    requires GoodChain(chain, hash) && InStep(s, hash, chain) && PastAll(s, from)
    requires s.commitmentsReached.Some? && s.nullifiersReached.Some? && Faithful(events, chain, from, to)
    ensures InStep(Delivered(s, events, to), hash, chain)
  {
    hide GoodChain, Faithful, ProcessPage, StateAt, NullifiersAt, NullifiersOf;
    DeliveryExtendsPass(s.processors.flavour, hash, chain, s.commitmentsReached.value, events, from, to);
    DeliveryExtendsPass(s.processors.flavour, hash, chain, s.nullifiersReached.value, events, from, to);
  }

  /** An empty answer for a range means the processors have in effect reached its end. */
  lemma EmptyAnswerInStep(s: Sync, from: nat, to: nat, hash: HashFunc, chain: seq<LogEvent>)
    requires GoodChain(chain, hash) && InStep(s, hash, chain) && PastAll(s, from)
    requires s.commitmentsReached.Some? && s.nullifiersReached.Some? && Faithful([], chain, from, to)
    ensures InStep(s.(commitmentsReached := ReachedBy(s.commitmentsReached, to),
                      nullifiersReached := ReachedBy(s.nullifiersReached, to)), hash, chain)
  {
    DeliveredInStep(s, [], from, to, hash, chain);
    assert Tag([], BlockedTxs([])) == [] && NullifiersOf([]) == {};
    assert ProcessBoth(s.processors, []) == s.processors;
  }

  lemma RetrieveHasNoGap(s: Sync, from: nat, fetched: Fetched, hash: HashFunc, chain: seq<LogEvent>)
    requires GoodChain(chain, hash) && NoGap(s, hash, chain) && PastAll(s, from)
    requires s.commitmentsReached.Some? && s.nullifiersReached.Some?
    requires fetched.Events? && from <= fetched.lastBlock ==> Faithful(fetched.events, chain, from, fetched.lastBlock)
    ensures NoGap(Retrieve(s, from, fetched), hash, chain)
  {
    hide GoodChain, Faithful, InStep, ProcessBoth;
    if fetched.Events? && from <= fetched.lastBlock {
      DeliveredInStep(s, fetched.events, from, fetched.lastBlock, hash, chain);
      assert InStep(Retrieve(s, from, fetched), hash, chain) by {
        SameProcessors(Delivered(s, fetched.events, fetched.lastBlock), Retrieve(s, from, fetched), hash, chain);
      }
    }
  }

  lemma SameProcessors(s: Sync, s': Sync, hash: HashFunc, chain: seq<LogEvent>)
    requires s'.processors == s.processors && s'.commitmentsReached == s.commitmentsReached && s'.nullifiersReached == s.nullifiersReached
    ensures InStep(s, hash, chain) ==> InStep(s', hash, chain)
  {
    hide StateAt, NullifiersAt;
  }

  lemma PollHasNoGap(s: Sync, response: Response, hash: HashFunc, chain: seq<LogEvent>)
    requires GoodChain(chain, hash) && NoGap(s, hash, chain) && s.cursor.Some?
    requires response.Response? ==> Faithful(response.events, chain, s.cursor.value, response.latest)
    ensures NoGap(PollTick(s, response), hash, chain)
  {
    hide GoodChain, Faithful, InStep, ProcessBoth;
    if response.Response? {
      var s' := PollTick(s, response);
      if response.events != [] {
        DeliveredInStep(s, response.events, s.cursor.value, response.latest, hash, chain);
        SameProcessors(Delivered(s, response.events, response.latest), s', hash, chain);
      } else if response.latest >= s.cursor.value {
        EmptyAnswerInStep(s, s.cursor.value, response.latest, hash, chain);
        SameProcessors(s.(commitmentsReached := ReachedBy(s.commitmentsReached, response.latest),
                          nullifiersReached := ReachedBy(s.nullifiersReached, response.latest)), s', hash, chain);
      }
    }
  }

  /** Every step, successful or failing, leaves no gap. */
  lemma StepHasNoGap(s: Sync, step: Step, hash: HashFunc, chain: seq<LogEvent>)
    requires GoodChain(chain, hash) && NoGap(s, hash, chain) && Enabled(s, step, chain)
    ensures NoGap(Take(s, step, hash, chain), hash, chain)
  {
    hide GoodChain, Faithful, Retrieve, PollTick, StateAt, NullifiersAt;
    match step
    case RunRetrieve(which, fetched) =>
      RetrieveHasNoGap(s, s.retrievals[which], fetched, hash, chain);
      RetrieveFrame(s, s.retrievals[which], fetched);
    case Poll(response) => PollHasNoGap(s, response, hash, chain);
    case _ =>
  }

  lemma RetrieveFrame(s: Sync, from: nat, fetched: Fetched)
    ensures var s' := Retrieve(s, from, fetched);
            s'.retrievals == s.retrievals && s'.isReady == s.isReady && s'.cursor == s.cursor && s'.mark.synced == s.mark.synced
    ensures var s' := Retrieve(s, from, fetched);
            (s'.commitmentsReached.Some? <==> s.commitmentsReached.Some?) && (s'.nullifiersReached.Some? <==> s.nullifiersReached.Some?)
  {
  }

  // --- Every run.

  ghost predicate Runs(steps: seq<Step>, flavour: Flavour, hash: HashFunc, chain: seq<LogEvent>)
    decreases |steps|, 0
  {
    steps == [] ||
    (Runs(steps[..|steps| - 1], flavour, hash, chain) &&
     Enabled(After(steps[..|steps| - 1], flavour, hash, chain), steps[|steps| - 1], chain))
  }

  ghost function After(steps: seq<Step>, flavour: Flavour, hash: HashFunc, chain: seq<LogEvent>): Sync
    requires Runs(steps, flavour, hash, chain)
    decreases |steps|, 1
  {
    if steps == [] then Start(flavour, hash)
    else Take(After(steps[..|steps| - 1], flavour, hash, chain), steps[|steps| - 1], hash, chain)
  }

  /**
   After any interleaving of loads, Init, retrievals and polls, with failures anywhere: each loaded
   processor holds the one-pass state of a block no earlier than every block below the watermark and
   below the poll cursor.
   */
  lemma {:induction false} EveryRunHasNoGap(steps: seq<Step>, flavour: Flavour, hash: HashFunc, chain: seq<LogEvent>)
    requires GoodChain(chain, hash) && Runs(steps, flavour, hash, chain)
    ensures NoGap(After(steps, flavour, hash, chain), hash, chain)
    decreases |steps|
  {
    hide GoodChain, NoGap, Take, Enabled;
    if steps == [] {
      StartHasNoGap(flavour, hash, chain);
    } else {
      var rest, last := steps[..|steps| - 1], steps[|steps| - 1];
      EveryRunHasNoGap(rest, flavour, hash, chain);
      StepHasNoGap(After(rest, flavour, hash, chain), last, hash, chain);
    }
  }

  /**
   In events: once both services are loaded, every commitment below the watermark or the cursor is the
   leaf at its slot, and every nullifier below them is known.
   */
  lemma NothingIsSkipped(steps: seq<Step>, flavour: Flavour, hash: HashFunc, chain: seq<LogEvent>, e: LogEvent)
    requires GoodChain(chain, hash) && Runs(steps, flavour, hash, chain) && e in chain
    requires var s := After(steps, flavour, hash, chain);
             && s.commitmentsReached.Some? && s.nullifiersReached.Some?
             && (e.block < s.mark.value || (s.cursor.Some? && e.block < s.cursor.value))
    ensures var p := After(steps, flavour, hash, chain).processors;
            && (e.CommitmentLog? ==> LeafAt(p.commitments.tree, Abs(e.event.index)) == Some(e.event.commitment))
            && (e.NullifierLog? ==> e.nullifier in p.nullifiers)
  {
    hide GoodChain, Runs, After, StateAt, Tag, Page;
    var s := After(steps, flavour, hash, chain);
    EveryRunHasNoGap(steps, flavour, hash, chain);
    AfterKeepsFlavour(steps, flavour, hash, chain);
    var c, n := s.commitmentsReached.value, s.nullifiersReached.value;
    PageMember(chain, 0, c);
    PageMember(chain, 0, n);
    if e.CommitmentLog? {
      var tagged := Tag(Page(chain, 0, c), BlockedTxs(chain));
      StateAtHolds(flavour, hash, chain, c);
      TagMember(Page(chain, 0, c), BlockedTxs(chain), (e.event, e.tx in BlockedTxs(chain)));
      var i :| 0 <= i < |tagged| && tagged[i] == (e.event, e.tx in BlockedTxs(chain));
    }
  }

  lemma {:induction false} AfterKeepsFlavour(steps: seq<Step>, flavour: Flavour, hash: HashFunc, chain: seq<LogEvent>)
    requires Runs(steps, flavour, hash, chain)
    ensures After(steps, flavour, hash, chain).processors.flavour == flavour
    decreases |steps|
  {
    if steps != [] { AfterKeepsFlavour(steps[..|steps| - 1], flavour, hash, chain); }
  }

  // --- Progress.

  /** Everything the step asks of the node and of storage works out. */
  predicate WorksOut(step: Step) {
    && (step.RunRetrieve? ==> step.fetched.Events? && step.fetched.saved)
    && (step.Poll? ==> step.response.Response? && step.response.saved)
  }

  /** The last block that the node or the server answered with. */
  function AnsweredBy(step: Step): Option<nat> {
    match step
    case RunRetrieve(_, Events(lastBlock, _, _)) => Some(lastBlock)
    case Poll(Response(latest, _, _)) => Some(latest)
    case _ => None
  }

  /** Answers never go back. */
  ghost predicate NeverBack(steps: seq<Step>) {
    forall i, j :: 0 <= i < j < |steps| && AnsweredBy(steps[i]).Some? && AnsweredBy(steps[j]).Some? ==>
      AnsweredBy(steps[i]).value <= AnsweredBy(steps[j]).value
  }

  ghost predicate AllWorkOut(steps: seq<Step>) {
    NeverBack(steps) && forall i :: 0 <= i < |steps| ==> WorksOut(steps[i])
  }

  /**
   The watermark is no lower than the last answer and the block the snapshots started from, and at most one higher; retrievals
   that have read their start, and the cursor, are no further than one past them either.
   */
  ghost predicate KeepsUp(s: Sync, answered: nat, floor: nat) {
    && answered <= s.mark.value && floor <= s.mark.value <= Max(answered, floor) + 1
    && (s.cursor.None? ==> s.mark.value <= Max(answered, floor))
    && (s.cursor.Some? ==> s.isReady && s.cursor.value <= Max(answered, floor) + 1)
    && (forall i :: 0 <= i < |s.retrievals| ==> floor <= s.retrievals[i] <= Max(answered, floor) + 1)
    && (s.commitmentsReached.None? || s.nullifiersReached.None? ==>
          answered == 0 && s.retrievals == [] && s.cursor.None? && !s.isReady && floor == s.mark.value)
  }

  function Later(answered: nat, step: Step): nat {
    if AnsweredBy(step).Some? then AnsweredBy(step).value else answered
  }

  lemma StepKeepsUp(s: Sync, step: Step, answered: nat, floor: nat, hash: HashFunc, chain: seq<LogEvent>) returns (floor': nat)
    requires KeepsUp(s, answered, floor) && Enabled(s, step, chain) && WorksOut(step)
    requires AnsweredBy(step).Some? ==> answered <= AnsweredBy(step).value
    ensures KeepsUp(Take(s, step, hash, chain), Later(answered, step), floor')
  {
    hide StateAt, NullifiersAt, Faithful, ProcessBoth, Retrieve, PollTick;
    floor' := if s.commitmentsReached.None? || s.nullifiersReached.None? then Take(s, step, hash, chain).mark.value else floor;
    match step
    case RunRetrieve(which, fetched) => RetrieveKeepsUp(s, which, fetched, answered, floor);
    case Poll(response) => PollKeepsUp(s, response, answered, floor);
    case _ =>
  }

  lemma RetrieveKeepsUp(s: Sync, which: nat, fetched: Fetched, answered: nat, floor: nat)
    requires KeepsUp(s, answered, floor) && which < |s.retrievals| && fetched.Events? && fetched.saved && answered <= fetched.lastBlock
    ensures KeepsUp(Retrieve(s, s.retrievals[which], fetched).(retrievals := s.retrievals[..which] + s.retrievals[which + 1..]), fetched.lastBlock, floor)
  {
    hide ProcessBoth;
    var left := s.retrievals[..which] + s.retrievals[which + 1..];
    forall i | 0 <= i < |left| ensures floor <= left[i] <= Max(fetched.lastBlock, floor) + 1 {
      assert left[i] == s.retrievals[if i < which then i else i + 1];
    }
    assert floor <= s.retrievals[which] <= Max(answered, floor) + 1;
    RetrieveFrame(s, s.retrievals[which], fetched);
  }

  lemma PollKeepsUp(s: Sync, response: Response, answered: nat, floor: nat)
    requires KeepsUp(s, answered, floor) && s.cursor.Some? && response.Response? && response.saved && answered <= response.latest
    ensures KeepsUp(PollTick(s, response), response.latest, floor)
  {
    hide ProcessBoth;
  }

  lemma {:induction false} RunKeepsUp(steps: seq<Step>, flavour: Flavour, hash: HashFunc, chain: seq<LogEvent>) returns (answered: nat, floor: nat)
    requires Runs(steps, flavour, hash, chain) && AllWorkOut(steps)
    ensures KeepsUp(After(steps, flavour, hash, chain), answered, floor)
    ensures forall i :: 0 <= i < |steps| && AnsweredBy(steps[i]).Some? ==> AnsweredBy(steps[i]).value <= answered
    ensures answered == 0 || exists i :: 0 <= i < |steps| && AnsweredBy(steps[i]) == Some(answered)
    decreases |steps|
  {
    hide KeepsUp, Take, Enabled, WorksOut, AnsweredBy;
    if steps == [] {
      answered, floor := 0, 0;
      assert KeepsUp(Start(flavour, hash), 0, 0) by { StartKeepsUp(flavour, hash); }
    } else {
      var n := |steps| - 1;
      answered, floor := RunKeepsUp(steps[..n], flavour, hash, chain);
      var s, last := After(steps[..n], flavour, hash, chain), steps[n];
      floor := StepKeepsUp(s, last, answered, floor, hash, chain);
      answered := Later(answered, last);
    }
  }

  lemma StartKeepsUp(flavour: Flavour, hash: HashFunc)
    ensures KeepsUp(Start(flavour, hash), 0, 0)
  {
  }

  /**
   In every run in which fetches and saves work out and answers never go back, the watermark is no lower than any block answered, and
   a retrieval asked for next, or the listener, starts no earlier than there.
   */
  lemma WatermarkKeepsUp(steps: seq<Step>, flavour: Flavour, hash: HashFunc, chain: seq<LogEvent>, i: nat)
    requires Runs(steps, flavour, hash, chain) && AllWorkOut(steps) && i < |steps| && AnsweredBy(steps[i]).Some?
    ensures var s, block := After(steps, flavour, hash, chain), AnsweredBy(steps[i]).value;
            && block <= s.mark.value
            && (Enabled(s, AskRetrieve, chain) ==> var asked := Take(s, AskRetrieve, hash, chain).retrievals; asked != [] && block <= asked[|asked| - 1])
            && (Enabled(s, Init, chain) ==> var asked := Take(s, Init, hash, chain).retrievals; asked != [] && block < asked[|asked| - 1])
            && (Enabled(s, StartListener, chain) ==> var cursor := Take(s, StartListener, hash, chain).cursor; cursor.Some? && block < cursor.value)
  {
    hide Runs, After, AllWorkOut, AnsweredBy;
    var _, _ := RunKeepsUp(steps, flavour, hash, chain);
  }

  /** Without any assumption on what else fails: a poll that works out takes the cursor past its answer, and the watermark with it. */
  lemma PollMovesCursor(s: Sync, response: Response)
    requires s.cursor.Some? && response.Response? && (response.events == [] || response.saved)
    ensures var s' := PollTick(s, response);
            && s'.cursor.Some? && s'.cursor.value == Max(s.cursor.value, response.latest + 1)
            && s'.mark.value >= s.mark.value
            && (response.latest >= s.cursor.value ==> s'.mark.value >= response.latest + 1)
  {
  }

  /** In either order the two loads leave the watermark at the lower of their blocks, from which the first retrieval starts. */
  lemma LoadsStartAtMinimum(flavour: Flavour, hash: HashFunc, chain: seq<LogEvent>, c: nat, c': nat, n: nat, n': nat)
    requires c <= c' && n <= n'
    ensures var both := [LoadCommitments(c, c'), LoadNullifiers(n, n')];
            && Runs(both, flavour, hash, chain) && After(both, flavour, hash, chain).mark.value == if c <= n then c else n
    ensures var both := [LoadNullifiers(n, n'), LoadCommitments(c, c')];
            && Runs(both, flavour, hash, chain) && After(both, flavour, hash, chain).mark.value == if c <= n then c else n
  {
    TwoSteps(LoadCommitments(c, c'), LoadNullifiers(n, n'), flavour, hash, chain);
    TwoSteps(LoadNullifiers(n, n'), LoadCommitments(c, c'), flavour, hash, chain);
  }

  lemma TwoSteps(a: Step, b: Step, flavour: Flavour, hash: HashFunc, chain: seq<LogEvent>)
    requires Enabled(Start(flavour, hash), a, chain) && Enabled(Take(Start(flavour, hash), a, hash, chain), b, chain)
    ensures Runs([a, b], flavour, hash, chain)
    ensures After([a, b], flavour, hash, chain) == Take(Take(Start(flavour, hash), a, hash, chain), b, hash, chain)
  {
    hide Take, Enabled, Start;
    assert [a, b][..1] == [a] && [a][..0] == [];
    assert Runs([], flavour, hash, chain);
    assert Runs([a], flavour, hash, chain);
  }
}
