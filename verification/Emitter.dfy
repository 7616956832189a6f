/** The emitter and the client's poller: objects whose watermark, flags and cursor are updated in place. */
module Emitter {
  import opened Wrappers
  import opened MerkleModel
  import opened MerkleTree
  import opened SnapshotModel
  import opened Replay
  import opened Services
  import opened SyncModel

  /** What a change, or a block further past the saved one than the depth, asks for is a depth that is known and a write that succeeds. */
  predicate Stored(saving: Saving, changed: bool, savedBlock: nat, latestBlock: nat) {
    saving.depth.Some? && (changed || savedBlock + saving.depth.value < latestBlock ==> saving.persisted)
  }

  predicate CanFail(saving: Saving) {
    saving.depth.None? || !saving.persisted
  }

  lemma SomethingNew(known: set<string>, more: set<string>)
    ensures known + more != known ==> |more - known| > 0
  {
    if more - known == {} {
      forall x | x in more ensures x in known { assert x !in more - known; }
      assert known + more == known;
    }
  }

  class BlockchainEventEmitter {
    var latestBlock: nat
    var synced: bool
    var isReady: bool
    var inProgress: bool
    const commitments: CommitmentsService
    const nullifiers: NullifierService

    /** The emitter and its two processors as the step system sees them. */
    ghost function View(): Sync
      reads this, commitments, commitments.merkleTree, nullifiers
    {
      Sync(
        Watermark(latestBlock, synced),
        Processors(commitments.flavour, commitments.State(), nullifiers.nullifiers),
        isReady, [], None, None, None)
    }

    /** Event slots below the leaf row make the tree panic. */
    ghost predicate SlotsFit(events: seq<LogEvent>)
      reads this, commitments, commitments.merkleTree
    {
      forall e :: e in events && e.CommitmentLog? ==> Abs(e.event.index) >= commitments.merkleTree.StartIndex()
    }

    /** One of the two services cannot save what the events bring. */
    ghost predicate SavingFails(events: seq<LogEvent>, savingC: Saving, savingN: Saving)
      reads this, commitments, commitments.merkleTree, nullifiers
    {
      || Fails(commitments.savedLatestBlock, AcceptedCount(commitments.flavour, commitments.State(), Tag(events, BlockedTxs(events))), latestBlock, savingC)
      || Fails(nullifiers.savedLatestBlock, |NullifiersOf(events) - nullifiers.nullifiers|, latestBlock, savingN)
    }

    constructor (flavour: Flavour, hash: HashFunc)
      ensures fresh(commitments) && fresh(commitments.merkleTree) && fresh(nullifiers)
      ensures View() == Start(flavour, hash)
    {
      latestBlock, synced, isReady, inProgress := 0, false, false, false;
      commitments := new CommitmentsService(flavour, hash);
      nullifiers := new NullifierService();
    }

    method AdvanceLatestBlockNumber(v: nat)
      modifies this`latestBlock
      ensures Watermark(latestBlock, synced) == Advance(old(Watermark(latestBlock, synced)), v)
    {
      if v > latestBlock {
        latestBlock := v;
      }
    }

    method SyncFromAtMostBlock(v: nat)
      modifies this`latestBlock, this`synced
      ensures Watermark(latestBlock, synced) == SyncFromAtMost(old(Watermark(latestBlock, synced)), v)
    {
      if !synced {
        synced := true;
        latestBlock := v;
        return;
      }
      if v < latestBlock {
        latestBlock := v;
      }
    }

    /** Loads the commitments snapshot, if it could be fetched and read. */
    method LoadCommitments(latest: nat, payload: Option<Commitments>) returns (failed: bool)
      modifies this, commitments
      ensures failed <==> payload.None?
      ensures failed ==> View() == old(View())
      ensures !failed ==> View() == old(View()).(
        mark := SyncFromAtMost(old(View()).mark, latest),
        processors := old(View()).processors.(commitments := payload.value))
    {
      if payload.None? {
        return true;
      }
      var tree := new SparseTree.FromState(payload.value.tree);
      commitments.merkleTree := tree;
      commitments.encOutputs := payload.value.outputs;
      commitments.byCommitment := payload.value.byCommitment;
      SyncFromAtMostBlock(latest);
      commitments.savedLatestBlock := latest;
      failed := false;
    }

    method LoadNullifiers(latest: nat, payload: Option<set<string>>) returns (failed: bool)
      modifies this, nullifiers
      ensures failed <==> payload.None?
      ensures failed ==> View() == old(View())
      ensures !failed ==> View() == old(View()).(
        mark := SyncFromAtMost(old(View()).mark, latest),
        processors := old(View()).processors.(nullifiers := payload.value))
    {
      if payload.None? {
        return true;
      }
      nullifiers.nullifiers := payload.value;
      SyncFromAtMostBlock(latest);
      nullifiers.savedLatestBlock := latest;
      failed := false;
    }

    /** Hands the events to every processor; each takes them all before it can fail to save. */
    method ProcessEvents(events: seq<LogEvent>, savingC: Saving, savingN: Saving) returns (failed: bool)
      requires SlotsFit(events)
      modifies commitments, commitments.merkleTree, nullifiers
      ensures commitments.merkleTree == old(commitments.merkleTree)
      ensures Processors(commitments.flavour, commitments.State(), nullifiers.nullifiers)
           == ProcessBoth(old(Processors(commitments.flavour, commitments.State(), nullifiers.nullifiers)), events)
      ensures failed == old(SavingFails(events, savingC, savingN))
      ensures !failed ==>
                && Stored(savingC, commitments.State() != old(commitments.State()), old(commitments.savedLatestBlock), latestBlock)
                && Stored(savingN, nullifiers.nullifiers != old(nullifiers.nullifiers), old(nullifiers.savedLatestBlock), latestBlock)
      ensures failed ==> CanFail(savingC) || CanFail(savingN)
    {
      hide ProcessPage, AcceptedCount, Tag;
      var _, failedC := commitments.ProcessEventsPage(events, latestBlock, savingC);
      ghost var known := nullifiers.nullifiers;
      var _, failedN := nullifiers.ProcessEventsPage(events, latestBlock, savingN);
      SomethingNew(known, NullifiersOf(events));
      failed := failedC || failedN;
    }

    /** lastBlock and events are what the node answered. */
    method RetrieveEvents(fromBlock: nat, force: bool, lastBlock: Option<nat>, events: Option<seq<LogEvent>>,
                          savingC: Saving, savingN: Saving)
      returns (failed: bool, ghost fetched: Fetched)
      requires events.Some? ==> SlotsFit(events.value)
      modifies this, commitments, commitments.merkleTree, nullifiers
      ensures old(inProgress) && !force ==> View() == old(View()) && inProgress
      ensures !(old(inProgress) && !force) ==> View() == Retrieve(old(View()), fromBlock, fetched) && !inProgress
      ensures fetched == (if lastBlock.None? then NoLastBlock
                          else if events.None? then FetchFailed(lastBlock.value)
                          else Fetched.Events(lastBlock.value, events.value, !failed))
      ensures failed ==
        if old(inProgress) && !force then false
        else lastBlock.None? || (lastBlock.value >= fromBlock && (events.None? || old(SavingFails(events.value, savingC, savingN))))
      ensures latestBlock ==
        if (old(inProgress) && !force) || failed || lastBlock.value < fromBlock then old(latestBlock) else lastBlock.value
      ensures latestBlock != old(latestBlock) ==>
                && Stored(savingC, commitments.State() != old(commitments.State()), old(commitments.savedLatestBlock), old(latestBlock))
                && Stored(savingN, nullifiers.nullifiers != old(nullifiers.nullifiers), old(nullifiers.savedLatestBlock), old(latestBlock))
    {
      hide ProcessBoth, AcceptedCount, Tag;
      fetched := if lastBlock.None? then NoLastBlock
                 else if events.None? then FetchFailed(lastBlock.value)
                 else Fetched.Events(lastBlock.value, events.value, true);
      failed := false;
      if inProgress && !force {
        return;
      }
      inProgress := true;
      if lastBlock.None? {
        inProgress := false;
        return true, fetched;
      }
      if lastBlock.value < fromBlock {
        inProgress := false;
        return;
      }
      if events.None? {
        inProgress := false;
        return true, fetched;
      }
      failed := ProcessEvents(events.value, savingC, savingN);
      inProgress := false;
      fetched := Fetched.Events(lastBlock.value, events.value, !failed);
      if !failed {
        latestBlock := lastBlock.value;
      }
    }

    /** Only once; the first retrieval starts just past the watermark. */
    method Init(lastBlock: Option<nat>, events: Option<seq<LogEvent>>, savingC: Saving, savingN: Saving) returns (failed: bool, ghost fetched: Fetched)
      requires events.Some? ==> SlotsFit(events.value)
      modifies this, commitments, commitments.merkleTree, nullifiers
      ensures old(isReady) ==> failed && View() == old(View()) && inProgress == old(inProgress)
      ensures !old(isReady) && old(inProgress) ==> !failed && View() == old(View()).(isReady := true) && inProgress
      ensures !old(isReady) && !old(inProgress) ==>
                && View() == Retrieve(old(View()).(isReady := true), old(latestBlock) + 1, fetched) && !inProgress
                && failed == (lastBlock.None? ||
                              (lastBlock.value > old(latestBlock) && (events.None? || old(SavingFails(events.value, savingC, savingN)))))
                && (!failed && lastBlock.value > old(latestBlock) ==> latestBlock == lastBlock.value)
    {
      hide ProcessBoth, AcceptedCount, Tag, Retrieve, Fails;
      if isReady {
        return true, NoLastBlock;
      }
      isReady := true;
      failed, fetched := RetrieveEvents(latestBlock + 1, false, lastBlock, events, savingC, savingN);
    }

    method ProcessExternalEvents(events: seq<LogEvent>, latest: nat, savingC: Saving, savingN: Saving) returns (failed: bool)
      requires SlotsFit(events)
      modifies this`latestBlock, commitments, commitments.merkleTree, nullifiers
      ensures commitments.merkleTree == old(commitments.merkleTree)
      ensures View() ==
        var s := old(View()).(processors := ProcessBoth(old(View()).processors, events));
        if failed then s else s.(mark := Advance(s.mark, latest))
      ensures failed == old(SavingFails(events, savingC, savingN))
      ensures latestBlock == if failed || latest <= old(latestBlock) then old(latestBlock) else latest
    {
      hide ProcessBoth, AcceptedCount, Tag;
      failed := ProcessEvents(events, savingC, savingN);
      if !failed {
        AdvanceLatestBlockNumber(latest);
      }
    }
  }

  class ClientPoller {
    var fetchFrom: nat

    constructor (emitter: BlockchainEventEmitter)
      ensures fetchFrom == emitter.latestBlock + 1
    {
      fetchFrom := emitter.latestBlock + 1;
    }

    /** One tick: answer is the server's latest block and events, if it answered. */
    method Tick(emitter: BlockchainEventEmitter, answer: Option<(nat, seq<LogEvent>)>, savingC: Saving, savingN: Saving)
      returns (ghost response: Response)
      requires answer.Some? ==> emitter.SlotsFit(answer.value.1)
      modifies this, emitter, emitter.commitments, emitter.commitments.merkleTree, emitter.nullifiers
      ensures emitter.View().(cursor := Some(fetchFrom)) == PollTick(old(emitter.View()).(cursor := Some(old(fetchFrom))), response)
      ensures answer.None? ==> response == NoResponse
      ensures answer.Some? ==> response.Response? && response.latest == answer.value.0 && response.events == answer.value.1
      ensures answer.Some? && response.saved ==>
                fetchFrom == (if answer.value.0 >= old(fetchFrom) then answer.value.0 + 1 else old(fetchFrom))
                && emitter.latestBlock >= old(emitter.latestBlock) && (answer.value.0 >= old(fetchFrom) ==> emitter.latestBlock >= answer.value.0 + 1)
      ensures answer.None? || !response.saved ==> fetchFrom == old(fetchFrom) && emitter.latestBlock == old(emitter.latestBlock)
      ensures answer.Some? ==> response.saved == (answer.value.1 == [] || !old(emitter.SavingFails(answer.value.1, savingC, savingN)))
    {
      hide ProcessBoth, AcceptedCount, Tag;
      if answer.None? {
        return NoResponse;
      }
      var latest, events := answer.value.0, answer.value.1;
      response := Response.Response(latest, events, true);
      if |events| > 0 {
        var failed := emitter.ProcessExternalEvents(events, latest, savingC, savingN);
        if failed {
          return Response.Response(latest, events, false);
        }
      }
      if latest >= fetchFrom {
        fetchFrom := latest + 1;
        emitter.AdvanceLatestBlockNumber(fetchFrom);
      }
    }
  }
}
