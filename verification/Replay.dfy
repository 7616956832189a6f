/**
 The event log as the chain has it, pages of it as an emitter delivers them, and the proof that
 delivering pages with overlaps and repeats, but no gap, gives the state of one pass over the log.
 */
module Replay {
  import opened Wrappers
  import opened Bits
  import opened MerkleModel
  import opened SnapshotModel
  import opened Positions

  datatype LogEvent =
    | CommitmentLog(block: nat, tx: int, event: CommitmentEvent)
    | NullifierLog(block: nat, tx: int, nullifier: string)
    | BlockedUtxosLog(block: nat, tx: int)
    | OtherLog(block: nat, tx: int)
    | UndecodableLog(block: nat, tx: int)

  type Tagged = seq<(CommitmentEvent, bool)>

  /** The transactions with a BlockedUtxosCreated event among the events. */
  function BlockedTxs(events: seq<LogEvent>): set<int> {
    set e | e in events && e.BlockedUtxosLog? :: e.tx
  }

  function TagOne(e: LogEvent, blocked: set<int>): Tagged {
    if e.CommitmentLog? then [(e.event, e.tx in blocked)] else []
  }

  /** The commitment events in order, each with its blocked flag. */
  function Tag(events: seq<LogEvent>, blocked: set<int>): Tagged {
    if events == [] then [] else Tag(events[..|events| - 1], blocked) + TagOne(events[|events| - 1], blocked)
  }

  function NullifiersOf(events: seq<LogEvent>): set<string> {
    set e | e in events && e.NullifierLog? :: e.nullifier
  }

  function AcceptAll(flavour: Flavour, s: Commitments, tagged: Tagged): Commitments {
    if tagged == [] then s
    else
      var last := tagged[|tagged| - 1];
      Accept(flavour, AcceptAll(flavour, s, tagged[..|tagged| - 1]), last.0, last.1).0
  }

  /** One delivery to the commitments service: blocked flags come from the delivered events themselves. */
  function ProcessPage(flavour: Flavour, s: Commitments, events: seq<LogEvent>): Commitments {
    AcceptAll(flavour, s, Tag(events, BlockedTxs(events)))
  }

  // --- The chain.

  function Page(chain: seq<LogEvent>, from: nat, to: nat): seq<LogEvent> {
    if chain == [] then []
    else
      var rest, last := Page(chain[..|chain| - 1], from, to), chain[|chain| - 1];
      if from <= last.block <= to then rest + [last] else rest
  }

  ghost predicate InBlockOrder(chain: seq<LogEvent>) {
    && (forall i :: 0 <= i < |chain| ==> chain[i].block >= 1)
    && (forall i, j :: 0 <= i < j < |chain| ==> chain[i].block <= chain[j].block)
  }

  ghost predicate TxsInOneBlock(chain: seq<LogEvent>) {
    forall e, e' :: e in chain && e' in chain && e.tx == e'.tx ==> e.block == e'.block
  }

  /** Each event fills a leaf slot, commitment and ciphertext of its own. */
  ghost predicate NonConflicting(tagged: Tagged, start: nat) {
    && (forall i :: 0 <= i < |tagged| ==> start <= Abs(tagged[i].0.index) < 2 * start)
    && (forall i, j :: 0 <= i < j < |tagged| ==>
          && Abs(tagged[i].0.index) != Abs(tagged[j].0.index)
          && tagged[i].0.commitment != tagged[j].0.commitment
          && tagged[i].0.encryptedOutput != tagged[j].0.encryptedOutput)
  }

  ghost predicate GoodChain(chain: seq<LogEvent>, hash: HashFunc) {
    && InBlockOrder(chain)
    && TxsInOneBlock(chain)
    && NonConflicting(Tag(chain, BlockedTxs(chain)), InitialState(hash).tree.Start())
  }

  /** One pass, each event once, over the log up to block b. */
  function StateAt(flavour: Flavour, hash: HashFunc, chain: seq<LogEvent>, b: nat): Commitments {
    AcceptAll(flavour, InitialState(hash), Tag(Page(chain, 0, b), BlockedTxs(chain)))
  }

  function NullifiersAt(chain: seq<LogEvent>, b: nat): set<string> {
    NullifiersOf(Page(chain, 0, b))
  }

  /** The delivered events hold what the range holds: same commitment events in order, same blocked flags, same nullifiers. */
  ghost predicate Faithful(events: seq<LogEvent>, chain: seq<LogEvent>, from: nat, to: nat) {
    && Tag(events, BlockedTxs(events)) == Tag(Page(chain, from, to), BlockedTxs(Page(chain, from, to)))
    && NullifiersOf(events) == NullifiersOf(Page(chain, from, to))
  }

  // --- Lists.

  lemma {:induction false} TagConcat(a: seq<LogEvent>, b: seq<LogEvent>, blocked: set<int>)
    ensures Tag(a + b, blocked) == Tag(a, blocked) + Tag(b, blocked)
    decreases |b|
  {
    hide TagOne;
    if b == [] {
      assert a + b == a;
    } else {
      TagConcat(a, b[..|b| - 1], blocked);
      assert (a + b)[..|a + b| - 1] == a + b[..|b| - 1];
    }
  }

  lemma {:induction false} AcceptAllConcat(flavour: Flavour, s: Commitments, a: Tagged, b: Tagged)
    ensures AcceptAll(flavour, s, a + b) == AcceptAll(flavour, AcceptAll(flavour, s, a), b)
    decreases |b|
  {
    hide Accept;
    if b == [] {
      assert a + b == a;
    } else {
      AcceptAllConcat(flavour, s, a, b[..|b| - 1]);
      assert (a + b)[..|a + b| - 1] == a + b[..|b| - 1];
    }
  }

  lemma {:induction false} PageMember(chain: seq<LogEvent>, from: nat, to: nat)
    ensures forall e :: e in Page(chain, from, to) <==> e in chain && from <= e.block <= to
    decreases |chain|
  {
    if chain != [] {
      PageMember(chain[..|chain| - 1], from, to);
      assert chain == chain[..|chain| - 1] + [chain[|chain| - 1]];
    }
  }

  lemma {:induction false} PageEmpty(chain: seq<LogEvent>, from: nat, to: nat)
    requires forall i :: 0 <= i < |chain| ==> !(from <= chain[i].block <= to)
    ensures Page(chain, from, to) == []
    decreases |chain|
  {
    if chain != [] { PageEmpty(chain[..|chain| - 1], from, to); }
  }

  /** In block order a range splits at any block inside it. */
  lemma {:induction false} PageSplit(chain: seq<LogEvent>, from: nat, mid: nat, to: nat)
    requires InBlockOrder(chain) && from <= mid + 1 && mid <= to
    ensures Page(chain, from, to) == Page(chain, from, mid) + Page(chain, mid + 1, to)
    decreases |chain|
  {
    if chain != [] {
      var rest, last := chain[..|chain| - 1], chain[|chain| - 1];
      PageSplit(rest, from, mid, to);
      if last.block <= mid {
        assert forall i :: 0 <= i < |rest| ==> rest[i] == chain[i];
        PageEmpty(rest, mid + 1, to);
      }
    }
  }

  lemma {:induction false} PageAll(chain: seq<LogEvent>, to: nat)
    requires forall i :: 0 <= i < |chain| ==> chain[i].block <= to
    ensures Page(chain, 0, to) == chain
    decreases |chain|
  {
    if chain != [] {
      PageAll(chain[..|chain| - 1], to);
      assert chain == chain[..|chain| - 1] + [chain[|chain| - 1]];
    }
  }

  lemma {:induction false} TagSame(events: seq<LogEvent>, blocked: set<int>, blocked': set<int>)
    requires forall e :: e in events ==> (e.tx in blocked <==> e.tx in blocked')
    ensures Tag(events, blocked) == Tag(events, blocked')
    decreases |events|
  {
    if events != [] { TagSame(events[..|events| - 1], blocked, blocked'); }
  }

  /** A page of whole blocks knows of its own transactions all that the log knows. */
  lemma PageTags(chain: seq<LogEvent>, from: nat, to: nat)
    requires TxsInOneBlock(chain)
    ensures var page := Page(chain, from, to); Tag(page, BlockedTxs(page)) == Tag(page, BlockedTxs(chain))
  {
    var page := Page(chain, from, to);
    PageMember(chain, from, to);
    forall e | e in page ensures e.tx in BlockedTxs(page) <==> e.tx in BlockedTxs(chain) {
      if e.tx in BlockedTxs(chain) {
        var e' :| e' in chain && e'.BlockedUtxosLog? && e'.tx == e.tx;
        assert e' in page;
      }
    }
    TagSame(page, BlockedTxs(page), BlockedTxs(chain));
  }

  // --- Replays.

  /** Accepting events whose leaves are in place changes nothing. */
  lemma {:induction false} ReplayIsNoOp(flavour: Flavour, s: Commitments, tagged: Tagged)
    requires forall i :: 0 <= i < |tagged| ==> LeafAt(s.tree, Abs(tagged[i].0.index)) == Some(tagged[i].0.commitment)
    ensures AcceptAll(flavour, s, tagged) == s
    decreases |tagged|
  {
    if tagged != [] { ReplayIsNoOp(flavour, s, tagged[..|tagged| - 1]); }
  }

  /** What is stored once non-conflicting events have been accepted: exactly their leaves, commitments and ciphertexts. */
  ghost predicate Holds(s: Commitments, tagged: Tagged) {
    && Consistent(s)
    && (forall i :: 0 <= i < |tagged| ==> LeafAt(s.tree, Abs(tagged[i].0.index)) == Some(tagged[i].0.commitment))
    && (forall x :: x in LeafSlots(s.tree) ==> exists i :: 0 <= i < |tagged| && Abs(tagged[i].0.index) == x)
    && (forall c :: c in s.byCommitment ==>
          exists i :: 0 <= i < |tagged| && tagged[i].0.commitment == c && tagged[i].0.encryptedOutput == s.byCommitment[c])
  }

  lemma {:induction false} PassHolds(flavour: Flavour, hash: HashFunc, tagged: Tagged)
    requires NonConflicting(tagged, InitialState(hash).tree.Start())
    ensures var s := AcceptAll(flavour, InitialState(hash), tagged);
            Holds(s, tagged) && s.tree.levels == MERKLE_LEVELS
    decreases |tagged|
  {
    hide Accept, Consistent, Pow2, Holds, NonConflicting;
    if tagged == [] {
      NothingHolds(hash);
    } else {
      var rest, last := tagged[..|tagged| - 1], tagged[|tagged| - 1];
      FrontNonConflicting(tagged, InitialState(hash).tree.Start());
      PassHolds(flavour, hash, rest);
      var s := AcceptAll(flavour, InitialState(hash), rest);
      assert tagged == rest + [last];
      SameStart(s.tree, InitialState(hash).tree);
      AcceptHolds(flavour, s, rest, last.0, last.1);
    }
  }

  lemma NothingHolds(hash: HashFunc)
    ensures Holds(InitialState(hash), []) && InitialState(hash).tree.levels == MERKLE_LEVELS
  {
    hide Pow2;
    InitialIsConsistent(hash);
  }

  lemma SameStart(a: Tree, b: Tree)
    requires a.levels == b.levels
    ensures a.Start() == b.Start()
  {
  }

  lemma FrontNonConflicting(tagged: Tagged, start: nat)
    requires tagged != [] && NonConflicting(tagged, start)
    ensures NonConflicting(tagged[..|tagged| - 1], start)
  {
  }

  lemma AcceptHolds(flavour: Flavour, s: Commitments, tagged: Tagged, event: CommitmentEvent, isBlocked: bool)
    requires Holds(s, tagged) && NonConflicting(tagged + [(event, isBlocked)], s.tree.Start())
    ensures var s' := Accept(flavour, s, event, isBlocked).0;
            Holds(s', tagged + [(event, isBlocked)]) && s'.tree.levels == s.tree.levels
  {
    hide Insert, Valid, Pow2, OutputsAreRange, DropFirst;
    var slot, s', all := Abs(event.index), Accept(flavour, s, event, isBlocked).0, tagged + [(event, isBlocked)];
    assert all[|tagged|] == (event, isBlocked);
    forall i | 0 <= i < |tagged|
      ensures Abs(tagged[i].0.index) != slot
      ensures tagged[i].0.commitment != event.commitment && tagged[i].0.encryptedOutput != event.encryptedOutput
    {
      assert all[i] == tagged[i];
    }
    assert slot !in LeafSlots(s.tree);
    StoredLeaf(s.tree, slot);
    InsertIsValid(s.tree, event.commitment, slot);
    assert Novel(s, event);
    AcceptIsConsistentIff(flavour, s, event, isBlocked);
    forall i | 0 <= i < |all| ensures LeafAt(s'.tree, Abs(all[i].0.index)) == Some(all[i].0.commitment) {
      if i < |tagged| {
        assert all[i] == tagged[i];
        StoredLeaf(s.tree, Abs(tagged[i].0.index));
      }
    }
    forall x | x in LeafSlots(s'.tree) ensures exists i :: 0 <= i < |all| && Abs(all[i].0.index) == x {
      if x == slot {
        assert Abs(all[|tagged|].0.index) == x;
      } else {
        var i :| 0 <= i < |tagged| && Abs(tagged[i].0.index) == x;
        assert all[i] == tagged[i];
      }
    }
    forall c | c in s'.byCommitment
      ensures exists i :: 0 <= i < |all| && all[i].0.commitment == c && all[i].0.encryptedOutput == s'.byCommitment[c]
    {
      if c == event.commitment {
        assert all[|tagged|].0.commitment == c;
      } else {
        var i :| 0 <= i < |tagged| && tagged[i].0.commitment == c && tagged[i].0.encryptedOutput == s.byCommitment[c];
        assert all[i] == tagged[i];
      }
    }
  }

  /** The events up to a block, tagged, are a prefix of all events tagged, so they do not conflict either. */
  lemma PrefixNonConflicting(chain: seq<LogEvent>, hash: HashFunc, b: nat)
    requires GoodChain(chain, hash)
    ensures NonConflicting(Tag(Page(chain, 0, b), BlockedTxs(chain)), InitialState(hash).tree.Start())
  {
    hide Tag, Page;
    var last := if chain == [] || chain[|chain| - 1].block <= b then b else chain[|chain| - 1].block;
    PageAll(chain, last);
    PageSplit(chain, 0, b, last);
    var blocked := BlockedTxs(chain);
    TagConcat(Page(chain, 0, b), Page(chain, b + 1, last), blocked);
    var p, all := Tag(Page(chain, 0, b), blocked), Tag(chain, blocked);
    assert forall i :: 0 <= i < |p| ==> p[i] == all[i];
  }

  /** The one-pass state is consistent and holds exactly the events of the range. */
  lemma StateAtHolds(flavour: Flavour, hash: HashFunc, chain: seq<LogEvent>, b: nat)
    requires GoodChain(chain, hash)
    ensures Holds(StateAt(flavour, hash, chain, b), Tag(Page(chain, 0, b), BlockedTxs(chain)))
    ensures StateAt(flavour, hash, chain, b).tree.levels == MERKLE_LEVELS
  {
    hide AcceptAll, Tag, Page, Holds;
    PrefixNonConflicting(chain, hash, b);
    PassHolds(flavour, hash, Tag(Page(chain, 0, b), BlockedTxs(chain)));
  }

  function Max(a: nat, b: nat): nat { if a >= b then a else b }

  /**
   A delivered range that leaves no gap after block p takes the one-pass state of p to the one-pass
   state of the further of p and the range's end, however much of it was delivered before.
   */
  lemma DeliveryExtendsPass(flavour: Flavour, hash: HashFunc, chain: seq<LogEvent>, p: nat, events: seq<LogEvent>, from: nat, to: nat)
    requires GoodChain(chain, hash) && Faithful(events, chain, from, to) && from <= p + 1
    ensures ProcessPage(flavour, StateAt(flavour, hash, chain, p), events) == StateAt(flavour, hash, chain, Max(p, to))
    ensures NullifiersAt(chain, p) + NullifiersOf(events) == NullifiersAt(chain, Max(p, to))
  {
    hide AcceptAll, Tag, Page, Holds, Accept;
    PageTags(chain, from, to);
    DeliveryOfPage(flavour, hash, chain, p, from, to);
    PageMember(chain, 0, p);
    PageMember(chain, from, to);
    PageMember(chain, 0, Max(p, to));
  }

  lemma DeliveryOfPage(flavour: Flavour, hash: HashFunc, chain: seq<LogEvent>, p: nat, from: nat, to: nat)
    requires GoodChain(chain, hash) && from <= p + 1
    ensures AcceptAll(flavour, StateAt(flavour, hash, chain, p), Tag(Page(chain, from, to), BlockedTxs(chain)))
         == StateAt(flavour, hash, chain, Max(p, to))
  {
    hide AcceptAll, Tag, Page, Holds, Accept;
    var blocked, s := BlockedTxs(chain), StateAt(flavour, hash, chain, p);
    if to <= p {
      SeenAlready(flavour, hash, chain, p, from, to);
    } else {
      SeenAlready(flavour, hash, chain, p, from, p);
      PageSplit(chain, from, p, to);
      PageSplit(chain, 0, p, to);
      TagConcat(Page(chain, from, p), Page(chain, p + 1, to), blocked);
      TagConcat(Page(chain, 0, p), Page(chain, p + 1, to), blocked);
      AcceptAllConcat(flavour, s, Tag(Page(chain, from, p), blocked), Tag(Page(chain, p + 1, to), blocked));
      AcceptAllConcat(flavour, InitialState(hash), Tag(Page(chain, 0, p), blocked), Tag(Page(chain, p + 1, to), blocked));
    }
  }

  lemma LeavesInPlace(flavour: Flavour, hash: HashFunc, chain: seq<LogEvent>, p: nat, from: nat, to: nat, s: Commitments, again: Tagged)
    requires GoodChain(chain, hash) && to <= p
    requires s == StateAt(flavour, hash, chain, p) && again == Tag(Page(chain, from, to), BlockedTxs(chain))
    ensures forall i :: 0 <= i < |again| ==> LeafAt(s.tree, Abs(again[i].0.index)) == Some(again[i].0.commitment)
  {
    hide AcceptAll, Page, Accept;
    var blocked := BlockedTxs(chain);
    StateAtHolds(flavour, hash, chain, p);
    PageMember(chain, from, to);
    PageMember(chain, 0, p);
    var done := Tag(Page(chain, 0, p), blocked);
    forall i | 0 <= i < |again| ensures LeafAt(s.tree, Abs(again[i].0.index)) == Some(again[i].0.commitment) {
      TagMember(Page(chain, from, to), blocked, again[i]);
      TagMember(Page(chain, 0, p), blocked, again[i]);
      var k :| 0 <= k < |done| && done[k] == again[i];
    }
  }

  lemma SeenAlready(flavour: Flavour, hash: HashFunc, chain: seq<LogEvent>, p: nat, from: nat, to: nat)
    requires GoodChain(chain, hash) && to <= p
    ensures var s := StateAt(flavour, hash, chain, p);
            AcceptAll(flavour, s, Tag(Page(chain, from, to), BlockedTxs(chain))) == s
  {
    hide AcceptAll, Page, Accept;
    var s, again := StateAt(flavour, hash, chain, p), Tag(Page(chain, from, to), BlockedTxs(chain));
    LeavesInPlace(flavour, hash, chain, p, from, to, s, again);
    ReplayIsNoOp(flavour, s, again);
  }

  lemma {:induction false} TagMember(events: seq<LogEvent>, blocked: set<int>, x: (CommitmentEvent, bool))
    ensures x in Tag(events, blocked) <==> exists e :: e in events && e.CommitmentLog? && x == (e.event, e.tx in blocked)
    decreases |events|
  {
    if events != [] {
      var rest, last := events[..|events| - 1], events[|events| - 1];
      TagMember(rest, blocked, x);
      assert events == rest + [last];
      assert last in events;
    }
  }

  // --- Whole runs of deliveries.

  datatype Delivery = Delivery(events: seq<LogEvent>, from: nat, to: nat)

  function Reached(p: nat, run: seq<Delivery>): nat {
    if run == [] then p else Max(Reached(p, run[..|run| - 1]), run[|run| - 1].to)
  }

  /** At least once and in order: each range is faithful and starts no later than just past what was reached. */
  ghost predicate GapFree(chain: seq<LogEvent>, p: nat, run: seq<Delivery>) {
    run == [] ||
    var rest, d := run[..|run| - 1], run[|run| - 1];
    GapFree(chain, p, rest) && Faithful(d.events, chain, d.from, d.to) && d.from <= Reached(p, rest) + 1
  }

  function DeliverAll(flavour: Flavour, s: Commitments, run: seq<Delivery>): Commitments {
    if run == [] then s else ProcessPage(flavour, DeliverAll(flavour, s, run[..|run| - 1]), run[|run| - 1].events)
  }

  function NullifyAll(n: set<string>, run: seq<Delivery>): set<string> {
    if run == [] then n else NullifyAll(n, run[..|run| - 1]) + NullifiersOf(run[|run| - 1].events)
  }

  /** Any at-least-once, gap-free run of deliveries, replays included, leaves exactly the one-pass state of the block reached. */
  lemma {:induction false} RunIsOnePass(flavour: Flavour, hash: HashFunc, chain: seq<LogEvent>, run: seq<Delivery>)
    requires GoodChain(chain, hash) && GapFree(chain, 0, run)
    ensures DeliverAll(flavour, InitialState(hash), run) == StateAt(flavour, hash, chain, Reached(0, run))
    ensures NullifyAll({}, run) == NullifiersAt(chain, Reached(0, run))
    decreases |run|
  {
    hide ProcessPage, StateAt, Faithful, GoodChain;
    if run == [] {
      NothingInBlockZero(chain, hash);
      assert DeliverAll(flavour, InitialState(hash), run) == StateAt(flavour, hash, chain, 0) by {
        EmptyPass(flavour, hash, chain);
      }
    } else {
      var rest, d := run[..|run| - 1], run[|run| - 1];
      RunIsOnePass(flavour, hash, chain, rest);
      DeliveryExtendsPass(flavour, hash, chain, Reached(0, rest), d.events, d.from, d.to);
    }
  }

  lemma NothingInBlockZero(chain: seq<LogEvent>, hash: HashFunc)
    requires GoodChain(chain, hash)
    ensures Page(chain, 0, 0) == [] && NullifiersAt(chain, 0) == {}
  {
    PageEmpty(chain, 0, 0);
  }

  lemma EmptyPass(flavour: Flavour, hash: HashFunc, chain: seq<LogEvent>)
    requires GoodChain(chain, hash)
    ensures StateAt(flavour, hash, chain, 0) == InitialState(hash)
  {
    NothingInBlockZero(chain, hash);
  }

  // --- The one-pass state, read off the log.

  /** The output recorded for a commitment event of the log. */
  predicate Records(flavour: Flavour, chain: seq<LogEvent>, e: LogEvent, out: EncryptedOutput) {
    && e.CommitmentLog? && out.value == e.event.encryptedOutput
    && (out.isBlocked <==> exists k :: 0 <= k < |chain| && chain[k].BlockedUtxosLog? && chain[k].tx == e.tx)
    && (flavour.Evm? ==> (out.isPositive <==> e.event.index >= 0) && out.blob == "")
    && (flavour.Solana? ==> (out.isPositive <==> !("solana-on-chain-utxo:" <= e.event.encryptedOutput)) && out.blob == e.event.blob)
  }

  /** The outputs are, in log order, one for each commitment event up to the block. */
  predicate OutputsAt(flavour: Flavour, chain: seq<LogEvent>, b: nat, outputs: seq<EncryptedOutput>, at: seq<nat>) {
    && Ascending(at, |chain|) && |at| == |outputs|
    && (forall j :: 0 <= j < |at| ==> Records(flavour, chain, chain[at[j]], outputs[j]))
    && forall i :: 0 <= i < |chain| ==> (i in at <==> chain[i].CommitmentLog? && chain[i].block <= b)
  }

  predicate IsCommitmentOf(e: LogEvent, b: nat, slot: nat, commitment: int, encryptedOutput: string) {
    && e.CommitmentLog? && e.block <= b && slot == (if e.event.index < 0 then -e.event.index else e.event.index)
    && e.event.commitment == commitment && e.event.encryptedOutput == encryptedOutput
  }

  predicate IsRecorded(s: Commitments, slot: nat, commitment: int, encryptedOutput: string) {
    && slot in s.tree.nodes && s.tree.nodes[slot] == commitment
    && commitment in s.byCommitment && s.byCommitment[commitment] == encryptedOutput
  }

  ghost predicate EventsRecorded(chain: seq<LogEvent>, b: nat, s: Commitments) {
    forall i, slot, commitment, text :: 0 <= i < |chain| && IsCommitmentOf(chain[i], b, slot, commitment, text) ==>
      IsRecorded(s, slot, commitment, text)
  }

  ghost predicate FromLog(chain: seq<LogEvent>, b: nat, slot: nat, commitment: int) {
    exists i, text :: 0 <= i < |chain| && IsCommitmentOf(chain[i], b, slot, commitment, text)
  }

  ghost predicate LeavesFromLog(chain: seq<LogEvent>, b: nat, s: Commitments) {
    forall x :: x in LeafSlots(s.tree) ==> FromLog(chain, b, x, s.tree.nodes[x])
  }

  ghost predicate KeysFromLog(chain: seq<LogEvent>, b: nat, s: Commitments) {
    forall c :: c in s.byCommitment ==> exists slot :: FromLog(chain, b, slot, c)
  }

  predicate NullifierFromLog(chain: seq<LogEvent>, b: nat, x: string) {
    exists i :: 0 <= i < |chain| && chain[i].NullifierLog? && chain[i].block <= b && chain[i].nullifier == x
  }

  /** Leaves, map, outputs and nullifiers are those of the events up to the block and no others. */
  ghost predicate RecordsLog(flavour: Flavour, chain: seq<LogEvent>, b: nat, s: Commitments, nullifiers: set<string>) {
    && (exists at :: OutputsAt(flavour, chain, b, s.outputs, at))
    && EventsRecorded(chain, b, s) && LeavesFromLog(chain, b, s) && KeysFromLog(chain, b, s)
    && forall x :: x in nullifiers <==> NullifierFromLog(chain, b, x)
  }

  /** A new event's output comes last. */
  lemma AcceptAppends(flavour: Flavour, s: Commitments, tagged: Tagged, event: CommitmentEvent, isBlocked: bool)
    requires Holds(s, tagged) && NonConflicting(tagged + [(event, isBlocked)], s.tree.Start())
    ensures Accept(flavour, s, event, isBlocked).0.outputs == s.outputs + [OutputOf(flavour, event, isBlocked)]
    ensures Accept(flavour, s, event, isBlocked).0.byCommitment == s.byCommitment[event.commitment := event.encryptedOutput]
  {
    hide Insert, Valid, Pow2, DropFirst, OutputOf;
    var slot, all := Abs(event.index), tagged + [(event, isBlocked)];
    assert all[|tagged|] == (event, isBlocked);
    assert forall i :: 0 <= i < |tagged| ==> all[i] == tagged[i];
    assert slot !in LeafSlots(s.tree);
    StoredLeaf(s.tree, slot);
    assert Forget(s, LeafAt(s.tree, slot)) == s;
    assert !HasValue(s.outputs, event.encryptedOutput);
  }

  predicate Mapped(s: Commitments, tagged: Tagged) {
    forall i :: 0 <= i < |tagged| ==>
      tagged[i].0.commitment in s.byCommitment && s.byCommitment[tagged[i].0.commitment] == tagged[i].0.encryptedOutput
  }

  predicate OutputsOfAll(flavour: Flavour, tagged: Tagged, outputs: seq<EncryptedOutput>) {
    |outputs| == |tagged| && forall i :: 0 <= i < |tagged| ==> outputs[i] == OutputOf(flavour, tagged[i].0, tagged[i].1)
  }

  lemma OneMoreOutput(flavour: Flavour, tagged: Tagged, outputs: seq<EncryptedOutput>, next: (CommitmentEvent, bool))
    requires OutputsOfAll(flavour, tagged, outputs)
    ensures OutputsOfAll(flavour, tagged + [next], outputs + [OutputOf(flavour, next.0, next.1)])
  {
    hide OutputOf;
  }

  lemma OneMoreMapped(s: Commitments, s': Commitments, tagged: Tagged, next: (CommitmentEvent, bool), start: nat)
    requires Mapped(s, tagged) && NonConflicting(tagged + [next], start)
    requires s'.byCommitment == s.byCommitment[next.0.commitment := next.0.encryptedOutput]
    ensures Mapped(s', tagged + [next])
  {
    var all := tagged + [next];
    assert all[|tagged|] == next;
    forall i | 0 <= i < |tagged| ensures tagged[i].0.commitment != next.0.commitment && all[i] == tagged[i] { assert all[i] == tagged[i]; }
  }

  /** After one pass over events that do not conflict: one output for each, in order, and every commitment mapped to its ciphertext. */
  lemma {:induction false} PassOutputs(flavour: Flavour, hash: HashFunc, tagged: Tagged)
    requires NonConflicting(tagged, InitialState(hash).tree.Start())
    ensures OutputsOfAll(flavour, tagged, AcceptAll(flavour, InitialState(hash), tagged).outputs)
    ensures Mapped(AcceptAll(flavour, InitialState(hash), tagged), tagged)
    decreases |tagged|
  {
    hide Accept, Pow2, Holds, OutputOf, NonConflicting;
    if tagged != [] {
      hide OutputsOfAll, Mapped;
      var n := |tagged| - 1;
      var rest, last := tagged[..n], tagged[n];
      FrontNonConflicting(tagged, InitialState(hash).tree.Start());
      PassOutputs(flavour, hash, rest);
      PassHolds(flavour, hash, rest);
      var s := AcceptAll(flavour, InitialState(hash), rest);
      assert tagged == rest + [last];
      SameStart(s.tree, InitialState(hash).tree);
      AcceptAppends(flavour, s, rest, last.0, last.1);
      OneMoreOutput(flavour, rest, s.outputs, last);
      OneMoreMapped(s, Accept(flavour, s, last.0, last.1).0, rest, last, s.tree.Start());
    }
  }

  /** Where in the log the tagged events stand. */
  predicate TagAt(chain: seq<LogEvent>, b: nat, blocked: set<int>, tagged: Tagged, at: seq<nat>) {
    && Ascending(at, |chain|) && |at| == |tagged|
    && (forall j :: 0 <= j < |at| ==> chain[at[j]].CommitmentLog? && tagged[j] == (chain[at[j]].event, chain[at[j]].tx in blocked))
    && forall i :: 0 <= i < |chain| ==> (i in at <==> chain[i].CommitmentLog? && chain[i].block <= b)
  }

  lemma {:induction false} TagPlaces(chain: seq<LogEvent>, b: nat, blocked: set<int>) returns (at: seq<nat>)
    ensures TagAt(chain, b, blocked, Tag(Page(chain, 0, b), blocked), at)
    decreases |chain|
  {
    hide TagAt, Page, Tag;
    if chain == [] {
      at := [];
      NothingAt(b, blocked);
    } else {
      var n := |chain| - 1;
      var before := TagPlaces(chain[..n], b, blocked);
      TagPageNext(chain, b, blocked);
      at := if chain[n].block <= b && chain[n].CommitmentLog? then before + [n] else before;
      var tagged := Tag(Page(chain[..n], 0, b), blocked);
      assert tagged + [] == tagged;
      TagAtNext(chain, b, blocked, tagged, before);
    }
  }

  lemma NothingAt(b: nat, blocked: set<int>)
    ensures TagAt([], b, blocked, Tag(Page([], 0, b), blocked), [])
  {
  }

  /** What the last event adds to the tagged events up to a block. */
  lemma TagPageNext(chain: seq<LogEvent>, b: nat, blocked: set<int>)
    requires chain != []
    ensures var n := |chain| - 1;
            Tag(Page(chain, 0, b), blocked) ==
            Tag(Page(chain[..n], 0, b), blocked) + if chain[n].block <= b then TagOne(chain[n], blocked) else []
  {
    hide TagOne;
    var n := |chain| - 1;
    if chain[n].block <= b {
      assert Page(chain, 0, b) == Page(chain[..n], 0, b) + [chain[n]];
      assert Page(chain, 0, b)[..|Page(chain[..n], 0, b)|] == Page(chain[..n], 0, b);
    }
  }

  lemma TagAtNext(chain: seq<LogEvent>, b: nat, blocked: set<int>, tagged: Tagged, at: seq<nat>)
    requires chain != [] && TagAt(chain[..|chain| - 1], b, blocked, tagged, at)
    ensures var n := |chain| - 1;
            if chain[n].block <= b && chain[n].CommitmentLog? then
              TagAt(chain, b, blocked, tagged + [(chain[n].event, chain[n].tx in blocked)], at + [n])
            else TagAt(chain, b, blocked, tagged, at)
  {
    Extended(at, |chain| - 1);
  }

  lemma RecordedEvent(flavour: Flavour, chain: seq<LogEvent>, e: LogEvent)
    requires e.CommitmentLog?
    ensures Records(flavour, chain, e, OutputOf(flavour, e.event, e.tx in BlockedTxs(chain)))
  {
    if e.tx in BlockedTxs(chain) {
      var k :| k in chain && k.BlockedUtxosLog? && k.tx == e.tx;
      var i :| 0 <= i < |chain| && chain[i] == k;
    }
  }

  /** The one-pass state of a block, and its nullifiers, are what the log up to that block says. */
  lemma StateRecordsLog(flavour: Flavour, hash: HashFunc, chain: seq<LogEvent>, b: nat)
    requires GoodChain(chain, hash)
    ensures RecordsLog(flavour, chain, b, StateAt(flavour, hash, chain, b), NullifiersAt(chain, b))
  {
    hide AcceptAll, Tag, Page, Holds, OutputOf, Records, GoodChain, NonConflicting, Consistent, BlockedTxs, EventsRecorded, LeavesFromLog, KeysFromLog,
         NullifierFromLog, NullifiersAt, Mapped;
    var blocked := BlockedTxs(chain);
    var tagged, s := Tag(Page(chain, 0, b), blocked), StateAt(flavour, hash, chain, b);
    PrefixNonConflicting(chain, hash, b);
    PassOutputs(flavour, hash, tagged);
    StateAtHolds(flavour, hash, chain, b);
    var at := TagPlaces(chain, b, blocked);
    forall j | 0 <= j < |at| ensures Records(flavour, chain, chain[at[j]], s.outputs[j]) { RecordedEvent(flavour, chain, chain[at[j]]); }
    assert OutputsAt(flavour, chain, b, s.outputs, at);
    EventsAreRecorded(chain, b, blocked, s, tagged, at);
    LeavesAreFromLog(chain, b, blocked, s, tagged, at);
    forall x ensures x in NullifiersAt(chain, b) <==> NullifierFromLog(chain, b, x) { NullifierRecorded(chain, b, x); }
  }

  lemma NullifierRecorded(chain: seq<LogEvent>, b: nat, x: string)
    ensures x in NullifiersAt(chain, b) <==> NullifierFromLog(chain, b, x)
  {
    hide Page;
    PageMember(chain, 0, b);
    if x in NullifiersAt(chain, b) {
      var e :| e in Page(chain, 0, b) && e.NullifierLog? && e.nullifier == x;
      assert e in chain;
      var i :| 0 <= i < |chain| && chain[i] == e;
    }
    if NullifierFromLog(chain, b, x) {
      var i :| 0 <= i < |chain| && chain[i].NullifierLog? && chain[i].block <= b && chain[i].nullifier == x;
      assert chain[i] in Page(chain, 0, b);
    }
  }

  lemma EventsAreRecorded(chain: seq<LogEvent>, b: nat, blocked: set<int>, s: Commitments, tagged: Tagged, at: seq<nat>)
    requires TagAt(chain, b, blocked, tagged, at) && Holds(s, tagged) && Mapped(s, tagged)
    ensures EventsRecorded(chain, b, s)
  {
    hide Consistent, LeafSlots, IsRecorded;
    forall i, slot: nat, commitment, text | 0 <= i < |chain| && IsCommitmentOf(chain[i], b, slot, commitment, text)
      ensures IsRecorded(s, slot, commitment, text)
    {
      assert i in at;
      var j :| 0 <= j < |at| && at[j] == i;
      EventIsRecorded(s, tagged, j);
    }
  }

  lemma EventIsRecorded(s: Commitments, tagged: Tagged, j: nat)
    requires Holds(s, tagged) && Mapped(s, tagged) && j < |tagged|
    ensures IsRecorded(s, Abs(tagged[j].0.index), tagged[j].0.commitment, tagged[j].0.encryptedOutput)
  {
    hide Consistent, LeafSlots;
    assert LeafAt(s.tree, Abs(tagged[j].0.index)) == Some(tagged[j].0.commitment);
  }

  lemma TaggedIsFromLog(chain: seq<LogEvent>, b: nat, blocked: set<int>, tagged: Tagged, at: seq<nat>, j: nat)
    requires TagAt(chain, b, blocked, tagged, at) && j < |tagged|
    ensures FromLog(chain, b, Abs(tagged[j].0.index), tagged[j].0.commitment)
  {
    assert at[j] in at;
    assert IsCommitmentOf(chain[at[j]], b, Abs(tagged[j].0.index), tagged[j].0.commitment, tagged[j].0.encryptedOutput);
  }

  lemma LeavesAreFromLog(chain: seq<LogEvent>, b: nat, blocked: set<int>, s: Commitments, tagged: Tagged, at: seq<nat>)
    requires TagAt(chain, b, blocked, tagged, at) && Holds(s, tagged)
    ensures LeavesFromLog(chain, b, s) && KeysFromLog(chain, b, s)
  {
    hide Consistent, TagAt, FromLog;
    forall x | x in LeafSlots(s.tree) ensures FromLog(chain, b, x, s.tree.nodes[x]) {
      var j :| 0 <= j < |tagged| && Abs(tagged[j].0.index) == x;
      TaggedIsFromLog(chain, b, blocked, tagged, at, j);
      assert LeafAt(s.tree, Abs(tagged[j].0.index)) == Some(tagged[j].0.commitment);
    }
    forall c | c in s.byCommitment ensures exists slot :: FromLog(chain, b, slot, c) {
      var j :| 0 <= j < |tagged| && tagged[j].0.commitment == c && tagged[j].0.encryptedOutput == s.byCommitment[c];
      TaggedIsFromLog(chain, b, blocked, tagged, at, j);
    }
  }

  /** Any at-least-once, gap-free run of deliveries leaves in both services what the log up to the block reached says. */
  lemma RunRecordsLog(flavour: Flavour, hash: HashFunc, chain: seq<LogEvent>, run: seq<Delivery>)
    requires GoodChain(chain, hash) && GapFree(chain, 0, run)
    ensures RecordsLog(flavour, chain, Reached(0, run), DeliverAll(flavour, InitialState(hash), run), NullifyAll({}, run))
  {
    hide RecordsLog, GoodChain, GapFree, DeliverAll, NullifyAll, StateAt, NullifiersAt;
    RunIsOnePass(flavour, hash, chain, run);
    StateRecordsLog(flavour, hash, chain, Reached(0, run));
  }
}
