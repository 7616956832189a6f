/** The snapshot services as the client keeps them: fields updated in place by each accepted event. */
module Services {
  import opened Wrappers
  import opened Bits
  import opened MerkleModel
  import opened MerkleTree
  import opened SnapshotModel
  import opened Replay

  /** Saving a snapshot may need the chain's save depth and then a successful write. */
  datatype Saving = Saving(depth: Option<nat>, persisted: bool)

  /** Whether a delivery that accepted so many events is followed by a save. */
  predicate NeedsSaving(saved: nat, accepted: nat, latestBlock: nat, saving: Saving) {
    saving.depth.Some? && (accepted > 0 || saved + saving.depth.value < latestBlock)
  }

  /** Without the depth, or when a save fails, the delivery reports a failure. */
  predicate Fails(saved: nat, accepted: nat, latestBlock: nat, saving: Saving) {
    saving.depth.None? || (NeedsSaving(saved, accepted, latestBlock, saving) && !saving.persisted)
  }

  // --- What saving achieves over many deliveries.

  /** What one delivery brings: how many events it changed the state with, the emitter's block, and how its saving goes. */
  datatype Arrival = Arrival(accepted: nat, latestBlock: nat, saving: Saving)

  /** The block noted as saved, and how many accepted events the snapshot in storage lacks. */
  datatype Saves = Saves(saved: nat, unsaved: nat)

  predicate Due(s: Saves, a: Arrival) {
    NeedsSaving(s.saved, a.accepted, a.latestBlock, a.saving)
  }

  predicate Succeeds(s: Saves, a: Arrival) {
    !Fails(s.saved, a.accepted, a.latestBlock, a.saving)
  }

  /** The block is noted before the snapshot is written, and stays noted when the write fails. */
  function SavesNext(s: Saves, a: Arrival): Saves {
    Saves(if Due(s, a) then a.latestBlock else s.saved,
          if Due(s, a) && a.saving.persisted then 0 else s.unsaved + a.accepted)
  }

  function SavesAfter(s: Saves, run: seq<Arrival>): Saves {
    if run == [] then s else SavesNext(SavesAfter(s, run[..|run| - 1]), run[|run| - 1])
  }

  ghost predicate AllSucceed(s: Saves, run: seq<Arrival>) {
    forall i :: 0 <= i < |run| ==> Succeeds(SavesAfter(s, run[..i]), run[i])
  }

  /** As long as every delivery succeeds, the snapshot in storage lacks nothing and its block lags by at most the depth. */
  lemma {:induction false} SuccessfulRunIsStored(s: Saves, run: seq<Arrival>)
    requires s.unsaved == 0 && AllSucceed(s, run)
    ensures SavesAfter(s, run).unsaved == 0
    ensures run != [] ==> var last := run[|run| - 1]; last.saving.depth.Some? && last.latestBlock <= SavesAfter(s, run).saved + last.saving.depth.value
    decreases |run|
  {
    if run != [] {
      var n := |run| - 1;
      forall i | 0 <= i < n ensures Succeeds(SavesAfter(s, run[..n][..i]), run[..n][i]) {
        assert run[..n][..i] == run[..i] && Succeeds(SavesAfter(s, run[..i]), run[i]);
      }
      SuccessfulRunIsStored(s, run[..n]);
      assert Succeeds(SavesAfter(s, run[..n]), run[n]);
    }
  }

  /** A delivery that succeeds leaves nothing unsaved exactly when nothing was unsaved before it, or a save was due. */
  lemma SuccessMeansStoredIff(s: Saves, a: Arrival)
    requires Succeeds(s, a)
    ensures SavesNext(s, a).unsaved == 0 <==> s.unsaved == 0 || Due(s, a)
  {
  }

  /** No further event, and no block further than the depth allows. */
  predicate Quiet(saved: nat, a: Arrival) {
    a.accepted == 0 && a.saving.depth.Some? && a.latestBlock <= saved + a.saving.depth.value
  }

  /** After a failed write the next deliveries do not try again while they are quiet: all succeed, and what was not saved stays unsaved. */
  lemma {:induction false} FailedSaveIsNotRetried(s: Saves, failing: Arrival, run: seq<Arrival>)
    requires Due(s, failing) && !failing.saving.persisted
    requires forall i :: 0 <= i < |run| ==> Quiet(failing.latestBlock, run[i])
    ensures !Succeeds(s, failing) && AllSucceed(SavesNext(s, failing), run)
    ensures SavesAfter(SavesNext(s, failing), run) == Saves(failing.latestBlock, s.unsaved + failing.accepted)
    decreases |run|
  {
    var s1 := SavesNext(s, failing);
    if run != [] {
      var n := |run| - 1;
      FailedSaveIsNotRetried(s, failing, run[..n]);
      forall i | 0 <= i < |run| ensures Succeeds(SavesAfter(s1, run[..i]), run[i]) {
        if i < n { assert run[..n][..i] == run[..i] && Succeeds(SavesAfter(s1, run[..n][..i]), run[..n][i]); }
      }
    }
  }

  // --- The services.

  /** How many of the events change the state. */
  function AcceptedCount(flavour: Flavour, s: Commitments, tagged: Tagged): nat {
    if tagged == [] then 0
    else
      var rest, last := tagged[..|tagged| - 1], tagged[|tagged| - 1];
      AcceptedCount(flavour, s, rest) + if Accept(flavour, AcceptAll(flavour, s, rest), last.0, last.1).1 then 1 else 0
  }

  /** The flag as given; on EVM the sign of the index and no blob, on Solana the missing prefix and the event's blob. */
  predicate IsOutputOf(flavour: Flavour, event: CommitmentEvent, isBlocked: bool, out: EncryptedOutput) {
    && out.value == event.encryptedOutput && out.isBlocked == isBlocked
    && (flavour.Evm? ==> (out.isPositive <==> event.index >= 0) && out.blob == "")
    && (flavour.Solana? ==> (out.isPositive <==> !("solana-on-chain-utxo:" <= event.encryptedOutput)) && out.blob == event.blob)
  }

  /**
   An event is accepted unless its leaf stands in its slot already. Then the commitment maps to the
   ciphertext, and unless the ciphertext was listed before, its output comes last.
   */
  ghost predicate ShowsEvent(flavour: Flavour, event: CommitmentEvent, isBlocked: bool, s: Commitments, s': Commitments, accepted: bool) {
    var slot := if event.index < 0 then -event.index else event.index;
    && (accepted <==> !(slot in s.tree.nodes && s.tree.nodes[slot] == event.commitment))
    && (!accepted ==> s' == s)
    && (accepted ==> event.commitment in s'.byCommitment && s'.byCommitment[event.commitment] == event.encryptedOutput)
    && (accepted && (forall k :: 0 <= k < |s.outputs| ==> s.outputs[k].value != event.encryptedOutput) ==>
          s'.outputs != [] && IsOutputOf(flavour, event, isBlocked, s'.outputs[|s'.outputs| - 1]))
  }

  lemma AcceptShowsEvent(flavour: Flavour, event: CommitmentEvent, isBlocked: bool, s: Commitments)
    ensures ShowsEvent(flavour, event, isBlocked, s, Accept(flavour, s, event, isBlocked).0, Accept(flavour, s, event, isBlocked).1)
  {
    hide Insert, FirstWith;
    var kept := Forget(s, LeafAt(s.tree, Abs(event.index)));
    assert forall k :: 0 <= k < |kept.outputs| ==> kept.outputs[k] in s.outputs;
  }

  lemma {:induction false} CountConcat(flavour: Flavour, s: Commitments, a: Tagged, b: Tagged)
    ensures AcceptedCount(flavour, s, a + b) == AcceptedCount(flavour, s, a) + AcceptedCount(flavour, AcceptAll(flavour, s, a), b)
    decreases |b|
  {
    hide Accept;
    if b == [] {
      assert a + b == a;
    } else {
      var n := |b| - 1;
      CountConcat(flavour, s, a, b[..n]);
      AcceptAllConcat(flavour, s, a, b[..n]);
      assert (a + b)[..|a + b| - 1] == a + b[..n];
    }
  }

  /** Events in place already are not counted. */
  lemma {:induction false} SeenAreNotCounted(flavour: Flavour, s: Commitments, tagged: Tagged)
    requires forall i :: 0 <= i < |tagged| ==> LeafAt(s.tree, Abs(tagged[i].0.index)) == Some(tagged[i].0.commitment)
    ensures AcceptedCount(flavour, s, tagged) == 0
    decreases |tagged|
  {
    if tagged != [] {
      var n := |tagged| - 1;
      SeenAreNotCounted(flavour, s, tagged[..n]);
      ReplayIsNoOp(flavour, s, tagged[..n]);
    }
  }

  /** Events that do not conflict with those in place are all counted. */
  lemma {:induction false} NewAreCounted(flavour: Flavour, s: Commitments, done: Tagged, more: Tagged)
    requires Holds(s, done) && NonConflicting(done + more, s.tree.Start())
    ensures AcceptedCount(flavour, s, more) == |more| && Holds(AcceptAll(flavour, s, more), done + more)
    ensures AcceptAll(flavour, s, more).tree.levels == s.tree.levels
    decreases |more|
  {
    hide Accept, Holds, NonConflicting, Pow2;
    if more == [] {
      assert done + more == done;
    } else {
      var n := |more| - 1;
      var last := more[n];
      assert done + more == done + more[..n] + [last];
      assert (done + more)[..|done + more| - 1] == done + more[..n];
      FrontNonConflicting(done + more, s.tree.Start());
      NewAreCounted(flavour, s, done, more[..n]);
      var s1 := AcceptAll(flavour, s, more[..n]);
      SameStart(s1.tree, s.tree);
      AcceptHolds(flavour, s1, done + more[..n], last.0, last.1);
      NewIsAccepted(flavour, s1, done + more[..n], last.0, last.1);
    }
  }

  lemma NewIsAccepted(flavour: Flavour, s: Commitments, tagged: Tagged, event: CommitmentEvent, isBlocked: bool)
    requires Holds(s, tagged) && NonConflicting(tagged + [(event, isBlocked)], s.tree.Start())
    ensures Accept(flavour, s, event, isBlocked).1
  {
    hide Insert, Valid, Pow2;
    var slot, all := Abs(event.index), tagged + [(event, isBlocked)];
    assert all[|tagged|] == (event, isBlocked);
    assert forall i :: 0 <= i < |tagged| ==> all[i] == tagged[i];
    assert slot !in LeafSlots(s.tree);
    StoredLeaf(s.tree, slot);
  }

  /** A delivery from no later than just past block p, on the one-pass state of p, counts exactly the commitment events after p, however much it repeats. */
  lemma DeliveryCountsNewEvents(flavour: Flavour, hash: HashFunc, chain: seq<LogEvent>, p: nat, from: nat, to: nat)
    requires GoodChain(chain, hash) && from <= p + 1 <= to
    ensures AcceptedCount(flavour, StateAt(flavour, hash, chain, p), Tag(Page(chain, from, to), BlockedTxs(chain)))
            == |Tag(Page(chain, p + 1, to), BlockedTxs(chain))|
  {
    hide AcceptAll, Tag, Page, Holds, Accept, AcceptedCount, NonConflicting, Pow2;
    var blocked, s := BlockedTxs(chain), StateAt(flavour, hash, chain, p);
    PageSplit(chain, from, p, to);
    PageSplit(chain, 0, p, to);
    var seen, later, done := Tag(Page(chain, from, p), blocked), Tag(Page(chain, p + 1, to), blocked), Tag(Page(chain, 0, p), blocked);
    TagConcat(Page(chain, from, p), Page(chain, p + 1, to), blocked);
    TagConcat(Page(chain, 0, p), Page(chain, p + 1, to), blocked);
    CountConcat(flavour, s, seen, later);
    SeenAlready(flavour, hash, chain, p, from, p);
    LeavesInPlace(flavour, hash, chain, p, from, p, s, seen);
    SeenAreNotCounted(flavour, s, seen);
    StateAtHolds(flavour, hash, chain, p);
    PrefixNonConflicting(chain, hash, to);
    SameStart(s.tree, InitialState(hash).tree);
    NewAreCounted(flavour, s, done, later);
  }

  class CommitmentsService {
    const flavour: Flavour
    var merkleTree: SparseTree
    var encOutputs: seq<EncryptedOutput>
    var byCommitment: map<int, string>
    var savedLatestBlock: nat

    ghost function State(): Commitments
      reads this, merkleTree
    {
      Commitments(merkleTree.State(), encOutputs, byCommitment)
    }

    constructor (flavour: Flavour, hash: HashFunc)
      ensures fresh(merkleTree) && State() == InitialState(hash) && this.flavour == flavour
    {
      this.flavour := flavour;
      encOutputs, byCommitment, savedLatestBlock := [], map[], 0;
      merkleTree := new SparseTree(hash, 0, 0);
    }

    method AcceptEvent(event: CommitmentEvent, isBlocked: bool) returns (accepted: bool)
      requires Abs(event.index) >= merkleTree.StartIndex()
      modifies this, merkleTree
      ensures (State(), accepted) == Accept(flavour, old(State()), event, isBlocked)
      ensures ShowsEvent(flavour, event, isBlocked, old(State()), State(), accepted)
      ensures merkleTree == old(merkleTree) && savedLatestBlock == old(savedLatestBlock)
    {
      hide Pow2, Insert, FirstWith, DropFirst, ShowsEvent;
      AcceptShowsEvent(flavour, event, isBlocked, State());
      var nodeIndex := Abs(event.index);
      var existing := merkleTree.GetValue(nodeIndex);
      if existing == Some(event.commitment) {
        return false;
      }
      merkleTree.Insert(event.commitment, nodeIndex);
      if existing.Some? {
        ForgetReplaced(existing.value);
      }
      byCommitment := byCommitment[event.commitment := event.encryptedOutput];
      var i := IndexOf(event.encryptedOutput);
      if i < |encOutputs| {
        assert HasValue(encOutputs, event.encryptedOutput);
        return true;
      }
      encOutputs := encOutputs + [OutputOf(flavour, event, isBlocked)];
      accepted := true;
    }

    /** Drops what the replaced leaf had brought in. */
    method ForgetReplaced(replaced: int)
      modifies this`encOutputs, this`byCommitment
      ensures State() == Forget(old(State()), Some(replaced))
    {
      hide FirstWith;
      if replaced in byCommitment {
        var i := IndexOf(byCommitment[replaced]);
        if i < |encOutputs| {
          encOutputs := encOutputs[..i] + encOutputs[i + 1..];
        }
        byCommitment := byCommitment - {replaced};
      }
    }

    method IndexOf(value: string) returns (i: nat)
      ensures i == FirstWith(encOutputs, value)
    {
      i := 0;
      while i < |encOutputs| && encOutputs[i].value != value
        invariant i <= |encOutputs|
        invariant forall k :: 0 <= k < i ==> encOutputs[k].value != value
      {
        i := i + 1;
      }
      var first := FirstWith(encOutputs, value);
      assert first == i;
    }

    /** One delivery: flags from the events themselves, then each commitment event in turn, then perhaps a save. */
    method ProcessEventsPage(events: seq<LogEvent>, latestBlock: nat, saving: Saving) returns (accepted: nat, failed: bool)
      requires forall e :: e in events && e.CommitmentLog? ==> Abs(e.event.index) >= merkleTree.StartIndex()
      modifies this, merkleTree
      ensures State() == ProcessPage(flavour, old(State()), events)
      ensures merkleTree == old(merkleTree)
      ensures accepted == AcceptedCount(flavour, old(State()), Tag(events, BlockedTxs(events)))
      ensures accepted == 0 ==> State() == old(State())
      ensures failed == Fails(old(savedLatestBlock), accepted, latestBlock, saving)
      ensures savedLatestBlock == if NeedsSaving(old(savedLatestBlock), accepted, latestBlock, saving) then latestBlock else old(savedLatestBlock)
    {
      var blocked := CollectBlocked(events);
      accepted := AcceptEach(events, blocked);
      failed := AfterEventsAccepted(accepted, latestBlock, saving);
    }

    method AcceptEach(events: seq<LogEvent>, blocked: set<int>) returns (accepted: nat)
      requires forall e :: e in events && e.CommitmentLog? ==> Abs(e.event.index) >= merkleTree.StartIndex()
      modifies this, merkleTree
      ensures State() == AcceptAll(flavour, old(State()), Tag(events, blocked))
      ensures merkleTree == old(merkleTree) && savedLatestBlock == old(savedLatestBlock)
      ensures accepted == AcceptedCount(flavour, old(State()), Tag(events, blocked))
      ensures accepted == 0 ==> State() == old(State())
    {
      hide Pow2, Accept, AcceptAll, Tag, AcceptedCount;
      ghost var s0 := State();
      accepted := 0;
      NothingTagged(flavour, s0, blocked);
      for i := 0 to |events|
        invariant merkleTree == old(merkleTree) && savedLatestBlock == old(savedLatestBlock)
        invariant State() == AcceptAll(flavour, s0, Tag(events[..i], blocked))
        invariant accepted == AcceptedCount(flavour, s0, Tag(events[..i], blocked))
        invariant accepted == 0 ==> State() == s0
      {
        TagNext(events, i, blocked);
        var e := events[i];
        assert e in events;
        if e.CommitmentLog? {
          AcceptNext(flavour, s0, Tag(events[..i], blocked), (e.event, e.tx in blocked));
          AcceptResult(flavour, State(), e.event, e.tx in blocked);
          var changed := AcceptEvent(e.event, e.tx in blocked);
          if changed {
            accepted := accepted + 1;
          }
        } else {
          assert Tag(events[..i], blocked) + [] == Tag(events[..i], blocked);
        }
      }
      assert events[..|events|] == events;
    }

    method AfterEventsAccepted(accepted: nat, latestBlock: nat, saving: Saving) returns (failed: bool)
      modifies this`savedLatestBlock
      ensures failed == Fails(old(savedLatestBlock), accepted, latestBlock, saving)
      ensures savedLatestBlock == if NeedsSaving(old(savedLatestBlock), accepted, latestBlock, saving) then latestBlock else old(savedLatestBlock)
    {
      if saving.depth.None? {
        return true;
      }
      if accepted > 0 || savedLatestBlock + saving.depth.value < latestBlock {
        savedLatestBlock := latestBlock;
        return !saving.persisted;
      }
      failed := false;
    }
  }

  method CollectBlocked(events: seq<LogEvent>) returns (blocked: set<int>)
    ensures blocked == BlockedTxs(events)
    ensures forall tx :: tx in blocked <==> exists i :: 0 <= i < |events| && events[i].BlockedUtxosLog? && events[i].tx == tx
  {
    blocked := {};
    for i := 0 to |events|
      invariant blocked == BlockedTxs(events[..i])
    {
      assert events[..i + 1] == events[..i] + [events[i]];
      if events[i].BlockedUtxosLog? {
        blocked := blocked + {events[i].tx};
      }
    }
    assert events[..|events|] == events;
  }

  lemma NothingTagged(flavour: Flavour, s: Commitments, blocked: set<int>)
    ensures AcceptAll(flavour, s, Tag([], blocked)) == s && AcceptedCount(flavour, s, Tag([], blocked)) == 0
  {
  }

  lemma TagNext(events: seq<LogEvent>, i: nat, blocked: set<int>)
    requires i < |events|
    ensures Tag(events[..i + 1], blocked) == Tag(events[..i], blocked) + TagOne(events[i], blocked)
  {
    assert events[..i + 1][..i] == events[..i];
  }

  lemma AcceptNext(flavour: Flavour, s: Commitments, tagged: Tagged, next: (CommitmentEvent, bool))
    ensures AcceptAll(flavour, s, tagged + [next]) == Accept(flavour, AcceptAll(flavour, s, tagged), next.0, next.1).0
    ensures AcceptedCount(flavour, s, tagged + [next]) ==
            AcceptedCount(flavour, s, tagged) + if Accept(flavour, AcceptAll(flavour, s, tagged), next.0, next.1).1 then 1 else 0
  {
    hide Accept;
    assert (tagged + [next])[..|tagged|] == tagged;
  }

  lemma AcceptResult(flavour: Flavour, s: Commitments, event: CommitmentEvent, isBlocked: bool)
    ensures !Accept(flavour, s, event, isBlocked).1 ==> Accept(flavour, s, event, isBlocked).0 == s
    ensures Accept(flavour, s, event, isBlocked).0.tree.levels == s.tree.levels
  {
    hide Climb, Pow2;
    InsertIsClimb(s.tree, event.commitment, Abs(event.index));
    ClimbFrame(Placed(s.tree, event.commitment, Abs(event.index)), Abs(event.index), Placed(s.tree, event.commitment, Abs(event.index)).Height());
  }

  lemma NoNullifiers(events: seq<LogEvent>)
    ensures NullifiersOf(events[..0]) == {}
  {
  }

  /** What one more event adds to the nullifiers of a page, and to those not known before it. */
  lemma NullifiersNext(events: seq<LogEvent>, i: nat, known: set<string>)
    requires i < |events|
    ensures var before, after := NullifiersOf(events[..i]), NullifiersOf(events[..i + 1]);
            && after == (if events[i].NullifierLog? then before + {events[i].nullifier} else before)
            && |after - known| == |before - known| +
                 if events[i].NullifierLog? && events[i].nullifier !in known + before then 1 else 0
  {
    hide NullifiersOf;
    assert events[..i + 1] == events[..i] + [events[i]];
    NullifiersAppend(events[..i], events[i]);
    if events[i].NullifierLog? {
      CountOneMore(NullifiersOf(events[..i]), events[i].nullifier, known);
    }
  }

  lemma NullifiersAppend(events: seq<LogEvent>, e: LogEvent)
    ensures NullifiersOf(events + [e]) == NullifiersOf(events) + if e.NullifierLog? then {e.nullifier} else {}
  {
  }

  lemma CountOneMore(before: set<string>, n: string, known: set<string>)
    ensures |(before + {n}) - known| == |before - known| + if n !in known + before then 1 else 0
  {
    if n in known + before {
      assert (before + {n}) - known == before - known;
    } else {
      assert (before + {n}) - known == (before - known) + {n};
    }
  }

  class NullifierService {
    var nullifiers: set<string>
    var savedLatestBlock: nat

    constructor ()
      ensures nullifiers == {} && savedLatestBlock == 0
    {
      nullifiers, savedLatestBlock := {}, 0;
    }

    method AcceptEvent(nullifier: string) returns (accepted: bool)
      modifies this`nullifiers
      ensures nullifiers == old(nullifiers) + {nullifier}
      ensures accepted <==> nullifier !in old(nullifiers)
    {
      if nullifier in nullifiers {
        return false;
      }
      nullifiers := nullifiers + {nullifier};
      accepted := true;
    }

    method ProcessEventsPage(events: seq<LogEvent>, latestBlock: nat, saving: Saving) returns (accepted: nat, failed: bool)
      modifies this
      ensures nullifiers == old(nullifiers) + NullifiersOf(events)
      ensures accepted == |NullifiersOf(events) - old(nullifiers)|
      ensures failed == Fails(old(savedLatestBlock), accepted, latestBlock, saving)
      ensures savedLatestBlock == if NeedsSaving(old(savedLatestBlock), accepted, latestBlock, saving) then latestBlock else old(savedLatestBlock)
    {
      hide NullifiersOf;
      accepted := 0;
      NoNullifiers(events);
      for i := 0 to |events|
        invariant savedLatestBlock == old(savedLatestBlock)
        invariant nullifiers == old(nullifiers) + NullifiersOf(events[..i])
        invariant accepted == |NullifiersOf(events[..i]) - old(nullifiers)|
      {
        NullifiersNext(events, i, old(nullifiers));
        if events[i].NullifierLog? {
          var changed := AcceptEvent(events[i].nullifier);
          if changed {
            accepted := accepted + 1;
          }
        }
      }
      assert events[..|events|] == events;
      failed := AfterEventsAccepted(accepted, latestBlock, saving);
    }

    method AfterEventsAccepted(accepted: nat, latestBlock: nat, saving: Saving) returns (failed: bool)
      modifies this`savedLatestBlock
      ensures failed == Fails(old(savedLatestBlock), accepted, latestBlock, saving)
      ensures savedLatestBlock == if NeedsSaving(old(savedLatestBlock), accepted, latestBlock, saving) then latestBlock else old(savedLatestBlock)
    {
      if saving.depth.None? {
        return true;
      }
      if accepted > 0 || savedLatestBlock + saving.depth.value < latestBlock {
        savedLatestBlock := latestBlock;
        return !saving.persisted;
      }
      failed := false;
    }
  }
}
