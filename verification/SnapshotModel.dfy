/**
 The commitments snapshot as a value: the tree, the encrypted outputs in acceptance order and the map
 from commitments to encrypted outputs; what accepting one event does; and why replays do nothing.
 */
module SnapshotModel {
  import opened Wrappers
  import opened MerkleModel

  datatype Flavour = Evm | Solana

  const SOLANA_ON_CHAIN_PREFIX: string := "solana-on-chain-utxo:"

  datatype EncryptedOutput = EncryptedOutput(value: string, isPositive: bool, isBlocked: bool, blob: string)

  datatype CommitmentEvent = CommitmentEvent(commitment: int, index: int, encryptedOutput: string, blob: string)

  datatype Commitments = Commitments(
    tree: Tree,
    outputs: seq<EncryptedOutput>,
    byCommitment: map<int, string>)

  function Abs(n: int): nat { if n < 0 then -n else n }

  /** The output recorded for an event. The EVM service has no blob and reads the sign of the index. */
  function OutputOf(flavour: Flavour, event: CommitmentEvent, isBlocked: bool): EncryptedOutput {
    match flavour
    case Evm => EncryptedOutput(event.encryptedOutput, event.index >= 0, isBlocked, "")
    case Solana =>
      EncryptedOutput(event.encryptedOutput, !(SOLANA_ON_CHAIN_PREFIX <= event.encryptedOutput), isBlocked, event.blob)
  }

  /** Position of the first output carrying the value, or the number of outputs. */
  function FirstWith(outputs: seq<EncryptedOutput>, value: string): (i: nat)
    ensures i <= |outputs|
    ensures i < |outputs| ==> outputs[i].value == value
    ensures forall k :: 0 <= k < i ==> outputs[k].value != value
  {
    if outputs == [] || outputs[0].value == value then 0 else 1 + FirstWith(outputs[1..], value)
  }

  /** The outputs without the first one carrying the value. */
  function DropFirst(outputs: seq<EncryptedOutput>, value: string): seq<EncryptedOutput> {
    var i := FirstWith(outputs, value);
    if i < |outputs| then outputs[..i] + outputs[i + 1..] else outputs
  }

  predicate HasValue(outputs: seq<EncryptedOutput>, value: string) {
    exists i :: 0 <= i < |outputs| && outputs[i].value == value
  }

  /** Forgets what the replaced leaf had brought in. */
  function Forget(s: Commitments, replaced: Option<int>): Commitments {
    if replaced.Some? && replaced.value in s.byCommitment then
      s.(outputs := DropFirst(s.outputs, s.byCommitment[replaced.value]), byCommitment := s.byCommitment - {replaced.value})
    else s
  }

  function LeafAt(t: Tree, slot: nat): Option<int> {
    if slot in t.nodes then Some(t.nodes[slot]) else None
  }

  function Accept(flavour: Flavour, s: Commitments, event: CommitmentEvent, isBlocked: bool): (Commitments, bool) {
    var slot := Abs(event.index);
    var existing := LeafAt(s.tree, slot);
    if existing == Some(event.commitment) then (s, false)
    else
      var kept := Forget(s, existing);
      var outputs :=
        if HasValue(kept.outputs, event.encryptedOutput) then kept.outputs
        else kept.outputs + [OutputOf(flavour, event, isBlocked)];
      (Commitments(
         Insert(s.tree, event.commitment, slot),
         outputs,
         kept.byCommitment[event.commitment := event.encryptedOutput]),
       true)
  }

  // ---------------------------------------------------------------------------------------------
  // What every acceptance keeps.

  ghost predicate LeavesDistinct(t: Tree) {
    forall x, y :: x in LeafSlots(t) && y in LeafSlots(t) && t.nodes[x] == t.nodes[y] ==> x == y
  }

  /** The map's keys are exactly the current leaf values. */
  ghost predicate KeysAreLeaves(s: Commitments) {
    && (forall x :: x in LeafSlots(s.tree) ==> s.tree.nodes[x] in s.byCommitment)
    && (forall c :: c in s.byCommitment ==> exists x :: x in LeafSlots(s.tree) && s.tree.nodes[x] == c)
  }

  ghost predicate CiphertextsDistinct(m: map<int, string>) {
    forall c, c' :: c in m && c' in m && m[c] == m[c'] ==> c == c'
  }

  predicate InRange(m: map<int, string>, value: string) {
    exists c :: c in m && m[c] == value
  }

  ghost predicate ValuesDistinct(outputs: seq<EncryptedOutput>) {
    forall i, j :: 0 <= i < j < |outputs| ==> outputs[i].value != outputs[j].value
  }

  /** The outputs are the map's range, each value once. */
  ghost predicate OutputsAreRange(outputs: seq<EncryptedOutput>, m: map<int, string>) {
    ValuesDistinct(outputs) && forall v :: HasValue(outputs, v) <==> InRange(m, v)
  }

  ghost predicate Consistent(s: Commitments) {
    && Valid(s.tree)
    && LeavesDistinct(s.tree)
    && KeysAreLeaves(s)
    && CiphertextsDistinct(s.byCommitment)
    && OutputsAreRange(s.outputs, s.byCommitment)
  }

  function InitialState(hash: HashFunc): Commitments {
    Commitments(New(hash, 0, 0), [], map[])
  }

  lemma InitialIsConsistent(hash: HashFunc)
    ensures Consistent(InitialState(hash))
  {
    NewIsValid(hash, 0, 0);
  }

  /** Neither the commitment nor the ciphertext belongs to a leaf other than the one replaced. */
  predicate Novel(s: Commitments, event: CommitmentEvent) {
    var others := Forget(s, LeafAt(s.tree, Abs(event.index))).byCommitment;
    event.commitment !in others && !InRange(others, event.encryptedOutput)
  }

  lemma DropFirstKeeps(outputs: seq<EncryptedOutput>, value: string)
    requires ValuesDistinct(outputs)
    ensures ValuesDistinct(DropFirst(outputs, value))
    ensures forall v :: HasValue(DropFirst(outputs, value), v) <==> HasValue(outputs, v) && v != value
  {
    hide FirstWith;
    var r, d := DropFirst(outputs, value), FirstWith(outputs, value);
    forall v ensures HasValue(r, v) <==> HasValue(outputs, v) && v != value {
      if HasValue(r, v) {
        var k :| 0 <= k < |r| && r[k].value == v;
        assert outputs[if k < d then k else k + 1] == r[k];
      }
      if HasValue(outputs, v) && v != value {
        var k :| 0 <= k < |outputs| && outputs[k].value == v;
        assert r[if k < d then k else k - 1] == outputs[k];
      }
    }
  }

  lemma AppendKeeps(outputs: seq<EncryptedOutput>, out: EncryptedOutput)
    requires ValuesDistinct(outputs)
    ensures ValuesDistinct(outputs + [out]) <==> !HasValue(outputs, out.value)
    ensures forall v :: HasValue(outputs + [out], v) <==> HasValue(outputs, v) || v == out.value
  {
    var r := outputs + [out];
    assert r[|outputs|] == out;
    forall v ensures HasValue(r, v) <==> HasValue(outputs, v) || v == out.value {
      if HasValue(outputs, v) {
        var k :| 0 <= k < |outputs| && outputs[k].value == v;
        assert r[k].value == v;
      }
    }
    if HasValue(outputs, out.value) {
      var k :| 0 <= k < |outputs| && outputs[k].value == out.value;
      assert r[k].value == r[|outputs|].value;
    }
  }

  /** Forgetting the replaced leaf keeps the outputs equal to the map's range. */
  lemma ForgetKeepsRange(s: Commitments, replaced: Option<int>)
    requires CiphertextsDistinct(s.byCommitment) && OutputsAreRange(s.outputs, s.byCommitment)
    ensures var kept := Forget(s, replaced);
            CiphertextsDistinct(kept.byCommitment) && OutputsAreRange(kept.outputs, kept.byCommitment)
  {
    if replaced.Some? && replaced.value in s.byCommitment {
      var m, c := s.byCommitment, replaced.value;
      DropFirstKeeps(s.outputs, m[c]);
      forall v ensures InRange(m - {c}, v) <==> InRange(m, v) && v != m[c] {
        if InRange(m, v) && v != m[c] {
          var c' :| c' in m && m[c'] == v;
          assert c' in m - {c};
        }
      }
    }
  }

  lemma AcceptKeepsRange(flavour: Flavour, s: Commitments, event: CommitmentEvent, isBlocked: bool)
    requires Consistent(s) && LeafAt(s.tree, Abs(event.index)) != Some(event.commitment) && Novel(s, event)
    ensures var s' := Accept(flavour, s, event, isBlocked).0;
            CiphertextsDistinct(s'.byCommitment) && OutputsAreRange(s'.outputs, s'.byCommitment)
  {
    hide Insert, Valid, KeysAreLeaves, LeavesDistinct;
    hide DropFirst, Forget, HasValue, InRange, LeafAt;
    var kept := Forget(s, LeafAt(s.tree, Abs(event.index)));
    ForgetKeepsRange(s, LeafAt(s.tree, Abs(event.index)));
    AppendKeeps(kept.outputs, OutputOf(flavour, event, isBlocked));
    RangeWith(kept.byCommitment, event.commitment, event.encryptedOutput);
  }

  lemma RangeWith(m: map<int, string>, c: int, value: string)
    requires c !in m && !InRange(m, value) && CiphertextsDistinct(m)
    ensures CiphertextsDistinct(m[c := value])
    ensures forall v :: InRange(m[c := value], v) <==> InRange(m, v) || v == value
  {
    forall v ensures InRange(m[c := value], v) <==> InRange(m, v) || v == value {
      if InRange(m, v) {
        var c' :| c' in m && m[c'] == v;
        assert c' in m[c := value];
      }
      assert c in m[c := value];
    }
  }

  lemma AcceptKeepsKeys(flavour: Flavour, s: Commitments, event: CommitmentEvent, isBlocked: bool)
    requires Consistent(s) && s.tree.IsLeafSlot(Abs(event.index))
    requires LeafAt(s.tree, Abs(event.index)) != Some(event.commitment) && Novel(s, event)
    ensures var s' := Accept(flavour, s, event, isBlocked).0;
            Valid(s'.tree) && LeavesDistinct(s'.tree) && KeysAreLeaves(s')
  {
    hide Insert, Valid, Hashed, Climbed, DropFirst;
    var s', slot := Accept(flavour, s, event, isBlocked).0, Abs(event.index);
    InsertIsValid(s.tree, event.commitment, slot);
    StoredLeaf(s.tree, slot);
    forall c | c in s'.byCommitment ensures exists x :: x in LeafSlots(s'.tree) && s'.tree.nodes[x] == c {
      if c == event.commitment {
        assert slot in LeafSlots(s'.tree) && s'.tree.nodes[slot] == c;
      } else {
        var x :| x in LeafSlots(s.tree) && s.tree.nodes[x] == c;
        assert x in LeafSlots(s'.tree) && s'.tree.nodes[x] == c;
      }
    }
    forall x | x in LeafSlots(s'.tree) ensures s'.tree.nodes[x] in s'.byCommitment && (s'.tree.nodes[x] == event.commitment ==> x == slot) {
      if x != slot { assert x in LeafSlots(s.tree); }
    }
  }

  lemma StoredLeaf(t: Tree, slot: nat)
    requires t.IsLeafSlot(slot)
    ensures slot in t.nodes <==> slot in LeafSlots(t)
  {
  }

  /**
   An event is accepted exactly when it changes a leaf, and the state stays consistent exactly when
   the event's commitment and ciphertext do not belong to some other leaf.
   */
  lemma AcceptIsConsistentIff(flavour: Flavour, s: Commitments, event: CommitmentEvent, isBlocked: bool)
    requires Consistent(s) && s.tree.IsLeafSlot(Abs(event.index))
    ensures var (s', accepted) := Accept(flavour, s, event, isBlocked);
            && (accepted <==> LeafAt(s'.tree, Abs(event.index)) != LeafAt(s.tree, Abs(event.index)))
            && LeafAt(s'.tree, Abs(event.index)) == Some(event.commitment)
            && (!accepted ==> s' == s)
            && (accepted ==> (Consistent(s') <==> Novel(s, event)))
  {
    hide Insert, Valid, DropFirst, KeysAreLeaves, LeavesDistinct, CiphertextsDistinct, OutputsAreRange;
    var (s', accepted) := Accept(flavour, s, event, isBlocked);
    if accepted {
      InsertIsValid(s.tree, event.commitment, Abs(event.index));
      if Novel(s, event) {
        AcceptKeepsKeys(flavour, s, event, isBlocked);
        AcceptKeepsRange(flavour, s, event, isBlocked);
      } else {
        NotNovelBreaks(flavour, s, event, isBlocked);
      }
    }
  }

  lemma NotNovelBreaks(flavour: Flavour, s: Commitments, event: CommitmentEvent, isBlocked: bool)
    requires Consistent(s) && s.tree.IsLeafSlot(Abs(event.index))
    requires LeafAt(s.tree, Abs(event.index)) != Some(event.commitment) && !Novel(s, event)
    ensures !Consistent(Accept(flavour, s, event, isBlocked).0)
  {
    hide Insert, Valid, DropFirst, OutputsAreRange;
    var s', slot := Accept(flavour, s, event, isBlocked).0, Abs(event.index);
    var others := Forget(s, LeafAt(s.tree, slot)).byCommitment;
    InsertIsValid(s.tree, event.commitment, slot);
    StoredLeaf(s.tree, slot);
    if event.commitment in others {
      var x :| x in LeafSlots(s.tree) && s.tree.nodes[x] == event.commitment;
      assert x in LeafSlots(s'.tree) && slot in LeafSlots(s'.tree) && s'.tree.nodes[x] == s'.tree.nodes[slot];
    } else {
      var c :| c in others && others[c] == event.encryptedOutput;
      assert c in s'.byCommitment && event.commitment in s'.byCommitment;
    }
  }
}
