/** Writing a commitments snapshot out and reading it back, for both flavours, and the nullifier snapshot. */
module SnapshotJson {
  import opened Wrappers
  import opened Bits
  import opened MerkleModel
  import opened MerkleJson
  import opened SnapshotModel
  import opened Replay

  datatype SerializedOutput = SerializedOutput(value: string, isPositive: string, isBlocked: bool, blob: string)

  datatype Serialized = Serialized(
    latestBlock: Option<nat>,
    tree: Option<MerkleTreeJSON>,
    outputs: seq<SerializedOutput>,
    byCommitment: seq<(int, string)>)

  datatype Snapshot = Snapshot(latestBlock: nat, payload: Commitments)

  function FormatBool(b: bool): string { if b then "true" else "false" }

  function ParseBool(text: string): Option<bool> {
    if text in ["1", "t", "T", "TRUE", "true", "True"] then Some(true)
    else if text in ["0", "f", "F", "FALSE", "false", "False"] then Some(false)
    else None
  }

  /** The EVM service does not write the blob. */
  function SerializeOutput(flavour: Flavour, out: EncryptedOutput): SerializedOutput {
    SerializedOutput(out.value, FormatBool(out.isPositive), out.isBlocked, if flavour == Solana then out.blob else "")
  }

  function SerializeOutputs(flavour: Flavour, outputs: seq<EncryptedOutput>): seq<SerializedOutput> {
    seq(|outputs|, i requires 0 <= i < |outputs| => SerializeOutput(flavour, outputs[i]))
  }

  function DeserializeOutput(flavour: Flavour, out: SerializedOutput): Option<EncryptedOutput> {
    var positive := ParseBool(out.isPositive);
    if positive.None? then None
    else Some(EncryptedOutput(out.value, positive.value, out.isBlocked, if flavour == Solana then out.blob else ""))
  }

  function InsertAscending(keys: seq<int>, key: int): seq<int> {
    if keys == [] || key <= keys[0] then [key] + keys else [keys[0]] + InsertAscending(keys[1..], key)
  }

  function SortAscending(keys: seq<int>): seq<int> {
    if keys == [] then [] else InsertAscending(SortAscending(keys[1..]), keys[0])
  }

  predicate Known(keys: seq<int>, m: map<int, string>) {
    forall i :: 0 <= i < |keys| ==> keys[i] in m
  }

  function Entries(m: map<int, string>, keys: seq<int>): seq<(int, string)>
    requires Known(keys, m)
  {
    seq(|keys|, i requires 0 <= i < |keys| => (keys[i], m[keys[i]]))
  }

  /** The keys of the map, all of them, in some order. */
  ghost predicate Lists(listing: seq<int>, m: map<int, string>) {
    Known(listing, m) && forall c :: c in m ==> c in listing
  }

  /** listing is the order in which the map happens to be iterated; the EVM service then sorts by commitment. */
  function Serialize(flavour: Flavour, snap: Snapshot, listing: seq<int>): Serialized
    requires Known(listing, snap.payload.byCommitment)
  {
    SortKeepsKnown(listing, snap.payload.byCommitment);
    Serialized(
      Some(snap.latestBlock),
      Some(ToJSON(snap.payload.tree)),
      SerializeOutputs(flavour, snap.payload.outputs),
      Entries(snap.payload.byCommitment, if flavour == Evm then SortAscending(listing) else listing))
  }

  function DeserializeOutputs(flavour: Flavour, outputs: seq<SerializedOutput>): Option<seq<EncryptedOutput>> {
    if outputs == [] then Some([])
    else
      var rest, last := DeserializeOutputs(flavour, outputs[..|outputs| - 1]), DeserializeOutput(flavour, outputs[|outputs| - 1]);
      if rest.None? || last.None? then None else Some(rest.value + [last.value])
  }

  function ToMap(entries: seq<(int, string)>): map<int, string> {
    if entries == [] then map[]
    else ToMap(entries[..|entries| - 1])[entries[|entries| - 1].0 := entries[|entries| - 1].1]
  }

  function Deserialize(flavour: Flavour, hash: HashFunc, s: Serialized): Result<Snapshot, string> {
    var tree :=
      if s.latestBlock.Some? && s.latestBlock.value > 0 && s.tree.Some? then FromJSON(s.tree.value, hash, 0)
      else Ok(New(hash, 0, 0));
    if tree.Err? then Err("deserialize merkle tree")
    else
      var outputs := DeserializeOutputs(flavour, s.outputs);
      if outputs.None? then Err("parse IsPositive")
      else
        Ok(Snapshot(
             if s.latestBlock.Some? then s.latestBlock.value else 0,
             Commitments(tree.value, outputs.value, ToMap(s.byCommitment))))
  }

  // --- Sorting and listing.

  ghost predicate Ascending(keys: seq<int>) {
    forall i, j :: 0 <= i < j < |keys| ==> keys[i] <= keys[j]
  }

  lemma {:induction false} InsertKeeps(keys: seq<int>, key: int)
    ensures forall c :: c in InsertAscending(keys, key) <==> c == key || c in keys
    ensures Ascending(keys) ==> Ascending(InsertAscending(keys, key))
    decreases |keys|
  {
    if keys != [] && key > keys[0] {
      InsertKeeps(keys[1..], key);
      assert keys == [keys[0]] + keys[1..];
      var tail := InsertAscending(keys[1..], key);
      if Ascending(keys) {
        forall j | 0 <= j < |tail| ensures keys[0] <= tail[j] { assert tail[j] in tail; }
      }
    }
  }

  lemma {:induction false} SortKeepsElements(keys: seq<int>)
    ensures forall c :: c in SortAscending(keys) <==> c in keys
    ensures Ascending(SortAscending(keys))
    decreases |keys|
  {
    if keys != [] {
      SortKeepsElements(keys[1..]);
      InsertKeeps(SortAscending(keys[1..]), keys[0]);
      assert keys == [keys[0]] + keys[1..];
    }
  }

  lemma SortKeepsKnown(keys: seq<int>, m: map<int, string>)
    requires Known(keys, m)
    ensures Known(SortAscending(keys), m)
  {
    var sorted := SortAscending(keys);
    SortKeepsElements(keys);
    forall i | 0 <= i < |sorted| ensures sorted[i] in m {
      assert sorted[i] in sorted;
      var k :| 0 <= k < |keys| && keys[k] == sorted[i];
    }
  }

  lemma {:induction false} ToMapOfEntries(m: map<int, string>, keys: seq<int>)
    requires Known(keys, m)
    ensures forall c :: c in ToMap(Entries(m, keys)) <==> c in keys
    ensures forall c :: c in ToMap(Entries(m, keys)) ==> c in m && ToMap(Entries(m, keys))[c] == m[c]
    decreases |keys|
  {
    if keys != [] {
      var rest, last := keys[..|keys| - 1], keys[|keys| - 1];
      assert keys == rest + [last];
      ToMapOfEntries(m, rest);
      assert Entries(m, keys)[..|keys| - 1] == Entries(m, rest);
    }
  }

  /** Writing the map in any order and reading it back loses nothing. */
  lemma ListingRoundTrip(m: map<int, string>, keys: seq<int>)
    requires Lists(keys, m)
    ensures ToMap(Entries(m, keys)) == m
  {
    hide ToMap, Entries;
    ToMapOfEntries(m, keys);
    var r := ToMap(Entries(m, keys));
    forall c ensures c in r <==> c in m {
      assert c in r <==> c in keys;
    }
    assert forall c :: c in r ==> r[c] == m[c];
  }

  // --- Round trips.

  predicate NoBlobs(outputs: seq<EncryptedOutput>) {
    forall i :: 0 <= i < |outputs| ==> outputs[i].blob == ""
  }

  /** The outputs as they are read back. */
  function AsRead(flavour: Flavour, outputs: seq<EncryptedOutput>): seq<EncryptedOutput> {
    seq(|outputs|, i requires 0 <= i < |outputs| => if flavour == Solana then outputs[i] else outputs[i].(blob := ""))
  }

  lemma OutputRoundTrip(flavour: Flavour, output: EncryptedOutput)
    ensures DeserializeOutput(flavour, SerializeOutput(flavour, output)) == Some(if flavour == Solana then output else output.(blob := ""))
  {
  }

  lemma {:induction false} OutputsRoundTrip(flavour: Flavour, outputs: seq<EncryptedOutput>)
    ensures DeserializeOutputs(flavour, SerializeOutputs(flavour, outputs)) == Some(AsRead(flavour, outputs))
    decreases |outputs|
  {
    hide DeserializeOutput;
    if outputs == [] {
      assert SerializeOutputs(flavour, outputs) == [] && AsRead(flavour, outputs) == [];
    } else {
      var rest, last := outputs[..|outputs| - 1], outputs[|outputs| - 1];
      OutputsRoundTrip(flavour, rest);
      var s := SerializeOutputs(flavour, outputs);
      assert s[..|outputs| - 1] == SerializeOutputs(flavour, rest);
      OutputRoundTrip(flavour, last);
      assert AsRead(flavour, outputs) == AsRead(flavour, rest) + [AsRead(flavour, outputs)[|outputs| - 1]];
    }
  }

  /** What reading back loses: at block zero the tree, and in the EVM flavour the blobs. */
  ghost predicate Representable(flavour: Flavour, snap: Snapshot) {
    var tree := snap.payload.tree;
    && (if snap.latestBlock > 0 then tree.levels == MERKLE_LEVELS && tree.defaultValue == 0 else tree == New(tree.hash, 0, 0))
    && (flavour == Evm ==> NoBlobs(snap.payload.outputs))
  }

  /** Reading back what was written, whatever order the map was listed in, is the identity exactly on representable snapshots. */
  lemma SnapshotRoundTripIff(flavour: Flavour, snap: Snapshot, listing: seq<int>)
    requires Lists(listing, snap.payload.byCommitment)
    ensures Deserialize(flavour, snap.payload.tree.hash, Serialize(flavour, snap, listing)) == Ok(snap) <==> Representable(flavour, snap)
  {
    hide Pow2, FromJSON, ToJSON, ToMap, Entries, SortAscending, DeserializeOutputs, SerializeOutputs, AsRead, NoBlobs;
    var keys := if flavour == Evm then SortAscending(listing) else listing;
    SortKeepsElements(listing);
    SortKeepsKnown(listing, snap.payload.byCommitment);
    assert Lists(keys, snap.payload.byCommitment);
    ListingRoundTrip(snap.payload.byCommitment, keys);
    OutputsRoundTrip(flavour, snap.payload.outputs);
    BlobsLost(flavour, snap.payload.outputs);
    TreeRoundTrip(snap.payload.tree);
  }

  lemma BlobsLost(flavour: Flavour, outputs: seq<EncryptedOutput>)
    ensures AsRead(flavour, outputs) == outputs <==> (flavour == Evm ==> NoBlobs(outputs))
  {
    if AsRead(flavour, outputs) == outputs && flavour == Evm {
      forall i | 0 <= i < |outputs| ensures outputs[i].blob == "" { assert AsRead(flavour, outputs)[i] == outputs[i]; }
    }
  }

  lemma TreeRoundTrip(t: Tree)
    ensures FromJSON(ToJSON(t), t.hash, 0).Ok?
    ensures FromJSON(ToJSON(t), t.hash, 0).value == t.(levels := MERKLE_LEVELS, defaultValue := 0)
  {
    ParsePrinted(t.nodes);
    ParsePrinted(t.reverse);
  }

  lemma {:induction false} ReachedIsRepresentable(flavour: Flavour, hash: HashFunc, tagged: Tagged)
    ensures var s := AcceptAll(flavour, InitialState(hash), tagged);
            && (flavour == Evm ==> NoBlobs(s.outputs))
            && s.tree.hash == hash && s.tree.defaultValue == 0 && s.tree.levels == MERKLE_LEVELS
    decreases |tagged|
  {
    hide Insert, Pow2;
    if tagged != [] {
      var s := AcceptAll(flavour, InitialState(hash), tagged[..|tagged| - 1]);
      var event := tagged[|tagged| - 1].0;
      ReachedIsRepresentable(flavour, hash, tagged[..|tagged| - 1]);
      InsertFrame(s.tree, event.commitment, Abs(event.index));
    }
  }

  lemma InsertFrame(t: Tree, value: int, slot: nat)
    ensures var t' := Insert(t, value, slot); t'.hash == t.hash && t'.defaultValue == t.defaultValue && t'.levels == t.levels
  {
    hide Climb, Pow2;
    InsertIsClimb(t, value, slot);
    ClimbFrame(Placed(t, value, slot), slot, Placed(t, value, slot).Height());
  }

  /** Every state either service reaches by accepting events, replacements and repeats included, saved under a positive block, is read back unchanged. */
  lemma ReachedStatesRoundTrip(flavour: Flavour, hash: HashFunc, tagged: Tagged, latestBlock: nat, listing: seq<int>)
    requires latestBlock > 0 && Lists(listing, AcceptAll(flavour, InitialState(hash), tagged).byCommitment)
    ensures var snap := Snapshot(latestBlock, AcceptAll(flavour, InitialState(hash), tagged));
            Deserialize(flavour, hash, Serialize(flavour, snap, listing)) == Ok(snap)
  {
    hide AcceptAll, Serialize, Deserialize;
    ReachedIsRepresentable(flavour, hash, tagged);
    SnapshotRoundTripIff(flavour, Snapshot(latestBlock, AcceptAll(flavour, InitialState(hash), tagged)), listing);
  }

  // --- What is written, and what cannot be read.

  lemma {:induction false} SortKeepsLength(keys: seq<int>)
    ensures |SortAscending(keys)| == |keys| && multiset(SortAscending(keys)) == multiset(keys)
    decreases |keys|
  {
    if keys != [] {
      SortKeepsLength(keys[1..]);
      InsertKeepsLength(SortAscending(keys[1..]), keys[0]);
      assert keys == [keys[0]] + keys[1..];
    }
  }

  lemma {:induction false} InsertKeepsLength(keys: seq<int>, key: int)
    ensures |InsertAscending(keys, key)| == |keys| + 1 && multiset(InsertAscending(keys, key)) == multiset(keys) + multiset{key}
    decreases |keys|
  {
    if keys != [] && key > keys[0] {
      InsertKeepsLength(keys[1..], key);
      assert keys == [keys[0]] + keys[1..];
    }
  }

  /** An output as the snapshot file has it: the sign as a word, and a blob on Solana only. */
  predicate WrittenAs(flavour: Flavour, out: EncryptedOutput, w: SerializedOutput) {
    && w.value == out.value && w.isBlocked == out.isBlocked
    && w.isPositive == (if out.isPositive then "true" else "false")
    && w.blob == (match flavour case Solana => out.blob case Evm => "")
  }

  /**
   The file has the block, every output in order and every commitment with its ciphertext: by rising commitment on EVM, in the
   order the map was listed on Solana.
   */
  lemma SnapshotWritten(flavour: Flavour, snap: Snapshot, listing: seq<int>)
    requires Known(listing, snap.payload.byCommitment)
    ensures var s, outputs := Serialize(flavour, snap, listing), snap.payload.outputs;
            && s.latestBlock == Some(snap.latestBlock)
            && |s.outputs| == |outputs| && (forall i :: 0 <= i < |outputs| ==> WrittenAs(flavour, outputs[i], s.outputs[i]))
            && (exists keys :: multiset(keys) == multiset(listing) && (flavour.Evm? ==> Ascending(keys)) && (flavour.Solana? ==> keys == listing)
                               && EntriesAre(s.byCommitment, keys, snap.payload.byCommitment))
  {
    hide SortAscending, ToJSON;
    SortKeepsElements(listing);
    SortKeepsLength(listing);
    SortKeepsKnown(listing, snap.payload.byCommitment);
    var keys := if flavour == Evm then SortAscending(listing) else listing;
    assert EntriesAre(Serialize(flavour, snap, listing).byCommitment, keys, snap.payload.byCommitment);
  }

  predicate EntriesAre(entries: seq<(int, string)>, keys: seq<int>, m: map<int, string>) {
    |entries| == |keys| && forall i :: 0 <= i < |keys| ==> keys[i] in m && entries[i] == (keys[i], m[keys[i]])
  }

  predicate IsBoolText(text: string) {
    text in ["1", "t", "T", "TRUE", "true", "True", "0", "f", "F", "FALSE", "false", "False"]
  }

  /** A number that does not parse, anywhere in the tree. */
  predicate MalformedTree(j: MerkleTreeJSON) {
    || (exists k :: k in j.tree && j.tree[k].Malformed?)
    || (j.reverseTree.Some? && exists k :: k in j.reverseTree.value && j.reverseTree.value[k].Malformed?)
    || j.count.Malformed? || j.index.Malformed?
  }

  lemma {:induction false} OutputsUnreadableIff(flavour: Flavour, outputs: seq<SerializedOutput>)
    ensures DeserializeOutputs(flavour, outputs).None? <==> exists i :: 0 <= i < |outputs| && !IsBoolText(outputs[i].isPositive)
    decreases |outputs|
  {
    hide IsBoolText, DeserializeOutput;
    if outputs != [] {
      var n := |outputs| - 1;
      OutputsUnreadableIff(flavour, outputs[..n]);
      OutputUnreadableIff(flavour, outputs[n]);
      if i :| 0 <= i < n && !IsBoolText(outputs[..n][i].isPositive) { assert !IsBoolText(outputs[i].isPositive); }
      if i :| 0 <= i < |outputs| && !IsBoolText(outputs[i].isPositive) {
        if i < n { assert !IsBoolText(outputs[..n][i].isPositive); }
      }
    }
  }

  lemma OutputUnreadableIff(flavour: Flavour, out: SerializedOutput)
    ensures DeserializeOutput(flavour, out).None? <==> !IsBoolText(out.isPositive)
  {
  }

  lemma NodesUnreadableIff(m: map<nat, Decimal<int>>)
    ensures ParseMap(m).None? <==> exists k :: k in m && m[k].Malformed?
  {
    assert forall k :: k in m ==> m[k].Printed? || m[k].Malformed?;
  }

  lemma IndexUnreadableIff(m: map<int, Decimal<nat>>)
    ensures ParseMap(m).None? <==> exists k :: k in m && m[k].Malformed?
  {
    if forall k :: k in m ==> m[k].Printed? {
      assert ParseMap(m).Some?;
    } else {
      var k :| k in m && !m[k].Printed?;
      assert m[k].Malformed?;
      assert ParseMap(m).None?;
    }
  }

  /** A file is refused exactly when some sign is no truth value, or it has a positive block and a tree with a number that does not parse. */
  lemma UnreadableIff(flavour: Flavour, hash: HashFunc, s: Serialized)
    ensures Deserialize(flavour, hash, s).Err? <==>
              || (s.latestBlock.Some? && s.latestBlock.value > 0 && s.tree.Some? && MalformedTree(s.tree.value))
              || exists i :: 0 <= i < |s.outputs| && !IsBoolText(s.outputs[i].isPositive)
  {
    hide DeserializeOutputs, IsBoolText, ToMap, New, BuildReverseTree;
    OutputsUnreadableIff(flavour, s.outputs);
    if s.tree.Some? { TreeUnreadableIff(s.tree.value, hash); }
  }

  lemma TreeUnreadableIff(j: MerkleTreeJSON, hash: HashFunc)
    ensures FromJSON(j, hash, 0).Err? <==> MalformedTree(j)
  {
    hide BuildReverseTree, ParseMap;
    NodesUnreadableIff(j.tree);
    if j.reverseTree.Some? { IndexUnreadableIff(j.reverseTree.value); }
  }

  // --- The nullifier snapshot: a list in any order, read back as a set.

  function NullifierSet(listing: seq<string>): set<string> {
    if listing == [] then {} else NullifierSet(listing[..|listing| - 1]) + {listing[|listing| - 1]}
  }

  lemma {:induction false} NullifierRoundTrip(nullifiers: set<string>, listing: seq<string>)
    requires forall n :: n in listing <==> n in nullifiers
    ensures NullifierSet(listing) == nullifiers
    decreases |listing|
  {
    if listing != [] {
      var rest := listing[..|listing| - 1];
      assert listing == rest + [listing[|listing| - 1]];
      NullifierRoundTrip((set n | n in rest), rest);
    }
  }
}
