/** The authentication paths handed to the circuit, one for every input note. */
module CircuitPaths {
  import opened Wrappers
  import opened Bits
  import opened MerkleModel
  import opened MerkleRoot
  import opened MerklePaths
  import MerkleTree

  /** An input note: its amount, if set, and its commitment, if it can be computed. */
  datatype InputNote = InputNote(amount: Option<int>, commitment: Option<int>)

  predicate Spends(note: InputNote) {
    note.amount.Some? && note.amount.value != 0
  }

  /** A path can be given: notes that spend must be in the tree, padding need not be. */
  predicate HasPath(t: Tree, note: InputNote) {
    note.commitment.Some? && t.Complete() && (Spends(note) ==> note.commitment.value in t.reverse)
  }

  predicate RowHasPaths(t: Tree, row: seq<InputNote>) {
    forall j :: 0 <= j < |row| ==> HasPath(t, row[j])
  }

  predicate PathsOf(t: Tree, row: seq<InputNote>, siblings: seq<seq<int>>, sides: seq<seq<int>>) {
    |siblings| == |sides| == |row| && forall j :: 0 <= j < |row| ==> PathOf(t, row[j], siblings[j], sides[j])
  }

  predicate PathOf(t: Tree, note: InputNote, siblings: seq<int>, sides: seq<int>) {
    && note.commitment.Some?
    && SiblingHashes(t, note.commitment.value) == Ok(siblings)
    && SiblingSides(t, note.commitment.value) == Ok(sides)
  }

  /** A note whose commitment can be computed, in a complete tree that has indexed it unless its amount is zero or unset. */
  predicate Admits(t: Tree, note: InputNote) {
    && note.commitment.Some? && t.Complete()
    && (note.amount.Some? && note.amount.value != 0 ==> note.commitment.value in t.reverse)
  }

  lemma AdmitsAll(t: Tree, rows: seq<seq<InputNote>>)
    ensures (forall i :: 0 <= i < |rows| ==> RowHasPaths(t, rows[i])) <==>
            (forall i, j :: 0 <= i < |rows| && 0 <= j < |rows[i]| ==> Admits(t, rows[i][j]))
  {
    forall i | 0 <= i < |rows| ensures RowHasPaths(t, rows[i]) <==> forall j :: 0 <= j < |rows[i]| ==> Admits(t, rows[i][j]) {
      forall j | 0 <= j < |rows[i]| ensures HasPath(t, rows[i][j]) <==> Admits(t, rows[i][j]) {}
    }
  }

  /** The paths of all notes, or an error exactly when some note has none. */
  method CalcCommitmentsSiblingAndSides(rows: seq<seq<InputNote>>, tree: MerkleTree.SparseTree)
    returns (r: Result<(seq<seq<seq<int>>>, seq<seq<seq<int>>>), string>)
    ensures r.Ok? <==> forall i :: 0 <= i < |rows| ==> RowHasPaths(tree.State(), rows[i])
    ensures r.Ok? <==> forall i, j :: 0 <= i < |rows| && 0 <= j < |rows[i]| ==> Admits(tree.State(), rows[i][j])
    ensures r.Ok? ==> |r.value.0| == |r.value.1| == |rows| &&
                      forall i :: 0 <= i < |rows| ==> PathsOf(tree.State(), rows[i], r.value.0[i], r.value.1[i])
  {
    hide Siblings, Sides, Pow2, SiblingHashes, SiblingSides, Admits;
    AdmitsAll(tree.State(), rows);
    for i := 0 to |rows|
      invariant forall k :: 0 <= k < i ==> SpentInTree(tree.State(), rows[k], |rows[k]|)
    {
      for j := 0 to |rows[i]|
        invariant SpentInTree(tree.State(), rows[i], j)
      {
        var note := rows[i][j];
        if Spends(note) {
          if note.commitment.None? {
            assert !HasPath(tree.State(), note);
            return Err("commitment cannot be computed");
          }
          var found := tree.Contains(note.commitment.value);
          if !found {
            assert !HasPath(tree.State(), note);
            return Err("input commitment is not in the merkle tree");
          }
        }
      }
    }
    var siblings: seq<seq<seq<int>>>, sides: seq<seq<seq<int>>> := [], [];
    for i := 0 to |rows|
      invariant |siblings| == |sides| == i
      invariant forall k :: 0 <= k < i ==> RowHasPaths(tree.State(), rows[k]) && PathsOf(tree.State(), rows[k], siblings[k], sides[k])
    {
      assert SpentInTree(tree.State(), rows[i], |rows[i]|);
      var paths := RowPaths(rows[i], tree);
      if paths.Err? {
        return Err(paths.error);
      }
      siblings, sides := siblings + [paths.value.0], sides + [paths.value.1];
    }
    r := Ok((siblings, sides));
  }

  predicate SpentInTree(t: Tree, row: seq<InputNote>, n: nat)
    requires n <= |row|
  {
    forall j :: 0 <= j < n && Spends(row[j]) ==> row[j].commitment.Some? && row[j].commitment.value in t.reverse
  }

  method RowPaths(row: seq<InputNote>, tree: MerkleTree.SparseTree) returns (r: Result<(seq<seq<int>>, seq<seq<int>>), string>)
    requires SpentInTree(tree.State(), row, |row|)
    ensures r.Ok? <==> RowHasPaths(tree.State(), row)
    ensures r.Ok? ==> PathsOf(tree.State(), row, r.value.0, r.value.1)
  {
    hide Siblings, Sides, Pow2;
    var siblings: seq<seq<int>>, sides: seq<seq<int>> := [], [];
    for j := 0 to |row|
      invariant |siblings| == |sides| == j
      invariant forall k :: 0 <= k < j ==> HasPath(tree.State(), row[k]) && PathOf(tree.State(), row[k], siblings[k], sides[k])
    {
      if row[j].commitment.None? {
        assert !HasPath(tree.State(), row[j]);
        return Err("commitment cannot be computed");
      }
      var noteSiblings := tree.GetSiblingHashesForVerification(row[j].commitment.value);
      var noteSides := tree.GetSiblingSides(row[j].commitment.value);
      if noteSiblings.Err? || noteSides.Err? {
        assert !HasPath(tree.State(), row[j]);
        return Err("merkle tree is incomplete");
      }
      siblings, sides := siblings + [noteSiblings.value], sides + [noteSides.value];
    }
    r := Ok((siblings, sides));
  }

  /** The path of a note in the tree folds to the root; a note outside it gets an all-zero path. */
  lemma CircuitPathFolds(t: Tree, note: InputNote, siblings: seq<int>, sides: seq<int>)
    requires Valid(t) && NeverZero(t.hash) && t.index - t.Start() <= Pow2(CIRCOM_MERKLE_LENGTH)
    requires HasPath(t, note) && PathOf(t, note, siblings, sides)
    requires note.commitment.value in t.reverse ==> StoredAt(t, note.commitment.value)
    ensures note.commitment.value in t.reverse ==>
              var k := t.Height();
              && k <= |siblings| == |sides|
              && RootHash(t) == Ok(ZeroAsDefault(FoldPath(t.hash, note.commitment.value, siblings[..k], sides[..k]), t.defaultValue))
    ensures note.commitment.value !in t.reverse ==>
              && |siblings| == |sides| == 25 && (forall i :: 0 <= i < 25 ==> siblings[i] == sides[i] == 0)
              && (note.amount.None? || note.amount.value == 0)
  {
    hide Siblings, Sides, Pow2, FoldPath, Valid, FirstOnSpine, CeilLog2;
    if note.commitment.value in t.reverse {
      AuthenticationPath(t, note.commitment.value);
    }
  }
}
