/**
 The tree to prove against while a deposit is still in flight: the live tree with the pending leaves
 appended to a copy, or the live tree itself once the indexer has caught up.
 */
module Speculative {
  import opened Wrappers
  import opened Bits
  import opened MerkleModel
  import opened MerkleRoot
  import opened MerklePaths
  import MerkleTree

  /** An input note: its amount, if any, and its commitment, if it can be computed and parsed. */
  datatype InputNote = InputNote(amount: Option<int>, commitment: Option<int>)

  predicate IsPositive(note: InputNote) {
    note.amount.Some? && note.amount.value > 0
  }

  /** How many of the leaves the tree contains. */
  function PresentCount(t: Tree, leaves: seq<int>): nat {
    if leaves == [] then 0
    else PresentCount(t, leaves[..|leaves| - 1]) + (if leaves[|leaves| - 1] in t.reverse then 1 else 0)
  }

  /** Each leaf inserted at the index the previous one left. */
  function AppendAll(t: Tree, leaves: seq<int>): Tree {
    if leaves == [] then t
    else
      var t' := AppendAll(t, leaves[..|leaves| - 1]);
      Insert(t', leaves[|leaves| - 1], t'.index)
  }

  predicate NotesPresent(t: Tree, notes: seq<InputNote>) {
    forall note | note in notes && IsPositive(note) :: note.commitment.Some? && note.commitment.value in t.reverse
  }

  predicate AllParsed(pending: seq<Option<int>>) {
    forall p | p in pending :: p.Some?
  }

  function Parsed(pending: seq<Option<int>>): seq<int>
    requires AllParsed(pending)
  {
    seq(|pending|, i requires 0 <= i < |pending| => pending[i].value)
  }

  /** The tree to use when the leaves are not partly indexed. */
  function ChosenTree(t: Tree, leaves: seq<int>): Tree {
    if PresentCount(t, leaves) == |leaves| then t else AppendAll(t, leaves)
  }

  predicate PartlyIndexed(t: Tree, leaves: seq<int>) {
    0 < PresentCount(t, leaves) < |leaves|
  }

  /** Slot x reads the same in both trees. */
  ghost predicate SameAt(t: Tree, t': Tree, x: nat) {
    (x in t'.nodes <==> x in t.nodes) && t'.Get(x) == t.Get(x)
  }

  /** t' keeps every slot of t below its index and continues with the leaves. */
  ghost predicate Extends(t': Tree, t: Tree, leaves: seq<int>) {
    && t' == t.(nodes := t'.nodes, reverse := t'.reverse, count := t.count + |leaves|, index := t.index + |leaves|)
    && (forall x :: t.Start() <= x < t.index ==> SameAt(t, t', x))
    && (forall x :: t.index <= x < t'.index ==> x in t'.nodes && t'.nodes[x] == leaves[x - t.index])
    && (forall v :: v in t'.reverse <==> v in t.reverse || v in leaves)
    && (forall v :: StoredAt(t, v) || v in leaves ==> StoredAt(t', v))
  }

  lemma {:induction false} PresentCountBounds(t: Tree, leaves: seq<int>)
    ensures PresentCount(t, leaves) <= |leaves|
    ensures PresentCount(t, leaves) == 0 <==> forall v :: v in leaves ==> v !in t.reverse
    ensures PresentCount(t, leaves) == |leaves| <==> forall v :: v in leaves ==> v in t.reverse
    decreases |leaves|
  {
    if leaves != [] {
      PresentCountBounds(t, leaves[..|leaves| - 1]);
      var rest, last := leaves[..|leaves| - 1], leaves[|leaves| - 1];
      assert leaves == rest + [last];
      assert last in leaves && forall v :: v in leaves <==> v in rest || v == last;
    }
  }

  /** Appending to a valid tree with room keeps it valid, adds exactly the new leaves and leaves no stale entry. */
  lemma {:induction false} AppendAllExtends(t: Tree, leaves: seq<int>)
    requires Valid(t) && t.index + |leaves| <= 2 * t.Start()
    ensures Valid(AppendAll(t, leaves)) && Extends(AppendAll(t, leaves), t, leaves)
    decreases |leaves|
  {
    hide Climb, Pow2, CeilLog2, Valid, Extends, Path;
    if leaves == [] {
      ExtendsNothing(t);
    } else {
      var rest, last := leaves[..|leaves| - 1], leaves[|leaves| - 1];
      AppendAllExtends(t, rest);
      var t1 := AppendAll(t, rest);
      assert t1.index == t.index + |rest| && t1.Start() == t.Start() by { ExtendsIndex(t1, t, rest); }
      AppendOne(t1, last);
      assert leaves == rest + [last];
      IndexPastStart(t);
      ExtendsTransitive(t, t1, AppendAll(t, leaves), rest, last);
    }
  }

  lemma ExtendsNothing(t: Tree)
    ensures Extends(t, t, [])
  {
  }

  lemma ExtendsIndex(t': Tree, t: Tree, leaves: seq<int>)
    requires Extends(t', t, leaves)
    ensures t'.index == t.index + |leaves| && t'.Start() == t.Start() && t'.hash == t.hash && t'.defaultValue == t.defaultValue
  {
  }

  lemma ExtendsTransitive(t: Tree, t1: Tree, t2: Tree, rest: seq<int>, last: int)
    requires Extends(t1, t, rest) && Extends(t2, t1, [last]) && t.Start() <= t.index
    ensures Extends(t2, t, rest + [last])
  {
    hide Pow2, ReverseSound;
    forall x | t.Start() <= x < t.index ensures SameAt(t, t2, x) {
      assert SameAt(t, t1, x) && SameAt(t1, t2, x);
    }
    forall x | t.index <= x < t2.index ensures x in t2.nodes && t2.nodes[x] == (rest + [last])[x - t.index] {
      if x < t1.index { assert SameAt(t1, t2, x); }
    }
  }

  lemma AppendOne(t: Tree, leaf: int)
    requires Valid(t) && t.index < 2 * t.Start()
    ensures Valid(Insert(t, leaf, t.index)) && Extends(Insert(t, leaf, t.index), t, [leaf])
  {
    hide Climb, Pow2, CeilLog2, Path, OnlyInUse, Climbed, Hashed, ReverseSound;
    StoredIsPositive(t);
    InsertIsValid(t, leaf, t.index);
    InsertKeepsIndex(t, leaf, t.index);
    var t' := Insert(t, leaf, t.index);
    forall x | t.Start() <= x < t.index ensures SameAt(t, t', x) {
      assert x in LeafSlots(t) <==> x in LeafSlots(t');
    }
  }

  /**
   The speculative root: it is available exactly when the live tree is complete, and it is then the
   recursive root of the live leaves followed by the pending ones (none, once they are all indexed).
   */
  lemma SpeculativeRoot(t: Tree, leaves: seq<int>)
    requires Valid(t) && NeverZero(t.hash) && t.index + |leaves| <= 2 * t.Start()
    ensures var t', root := ChosenTree(t, leaves), RootHash(ChosenTree(t, leaves));
            var added := if PresentCount(t, leaves) == |leaves| then [] else leaves;
            && Valid(t')
            && (root.Ok? <==> t.Complete())
            && (root.Ok? ==>
                root.value == ZeroAsDefault(RootFromScratch(t.hash, t.defaultValue, Leaves(t) + added), t.defaultValue))
  {
    hide Climb, Pow2, CeilLog2, Path, Valid, FirstOnSpine, RootOf, AppendAll, PresentCount, Leaves, RootHash, NeverZero, Filled;
    var t' := ChosenTree(t, leaves);
    var added := if PresentCount(t, leaves) == |leaves| then [] else leaves;
    AppendAllExtends(t, leaves);
    RootHashIsRecursiveRoot(t');
    IndexPastStart(t);
    IndexPastStart(t');
    ChosenLeaves(t, leaves);
    CompleteIffFilled(t);
    CompleteIffFilled(t');
  }

  lemma ChosenLeaves(t: Tree, leaves: seq<int>)
    requires Valid(t) && t.index + |leaves| <= 2 * t.Start()
    ensures t.Start() <= t.index && ChosenTree(t, leaves).Start() <= ChosenTree(t, leaves).index
    ensures Leaves(ChosenTree(t, leaves)) == Leaves(t) + if PresentCount(t, leaves) == |leaves| then [] else leaves
  {
    hide Climb, Pow2, Path, Valid, AppendAll, PresentCount;
    AppendAllExtends(t, leaves);
    IndexPastStart(t);
    var t' := AppendAll(t, leaves);
    assert Leaves(t') == Leaves(t) + leaves by {
      forall i | 0 <= i < |Leaves(t')| ensures Leaves(t')[i] == (Leaves(t) + leaves)[i] {
        var x := t.Start() + i;
        assert Leaves(t')[i] == t'.Get(x);
        if x < t.index {
          assert SameAt(t, t', x) && Leaves(t)[i] == t.Get(x);
        } else {
          assert t'.nodes[x] == leaves[x - t.index];
          assert (Leaves(t) + leaves)[i] == leaves[i - |Leaves(t)|];
        }
      }
    }
    assert Leaves(t) + [] == Leaves(t);
  }

  lemma IndexPastStart(t: Tree)
    requires Valid(t)
    ensures t.Start() <= t.index <= 2 * t.Start()
  {
  }

  /**
   Every positive input note of an accepted batch is stored in the chosen tree, and its siblings and
   sides fold to the chosen tree's root, as long as it is really stored: its own entry in the live index
   is not stale, or it is one of the leaves appended.
   */
  lemma SpeculativePathsFold(t: Tree, leaves: seq<int>, notes: seq<InputNote>, note: InputNote)
    requires Valid(t) && NeverZero(t.hash) && t.Complete()
    requires t.index + |leaves| <= 2 * t.Start() && t.index + |leaves| - t.Start() <= Pow2(CIRCOM_MERKLE_LENGTH)
    requires !PartlyIndexed(t, leaves) && NotesPresent(ChosenTree(t, leaves), notes)
    requires note in notes && IsPositive(note)
    requires StoredAt(t, note.commitment.value) || (note.commitment.value in leaves && PresentCount(t, leaves) < |leaves|)
    ensures var t', c := ChosenTree(t, leaves), note.commitment.value;
            var siblings, sides, root, k := SiblingHashes(t', c), SiblingSides(t', c), RootHash(t'), t'.Height();
            && StoredAt(t', c)
            && siblings.Ok? && sides.Ok? && root.Ok? && k <= |siblings.value| == |sides.value|
            && root.value == ZeroAsDefault(FoldPath(t.hash, c, siblings.value[..k], sides.value[..k]), t.defaultValue)
  {
    hide Climb, Pow2, CeilLog2, Path, Valid, FirstOnSpine, AppendAll, PresentCount, FoldPath, Siblings, Sides;
    AppendAllExtends(t, leaves);
    var t' := ChosenTree(t, leaves);
    assert StoredAt(t', note.commitment.value);
    AuthenticationPath(t', note.commitment.value);
  }

  /** A copy of the live tree with every leaf inserted at the copy's own index. */
  method CloneAndAppend(live: MerkleTree.SparseTree, leaves: seq<int>) returns (tree: MerkleTree.SparseTree)
    requires live.index >= live.StartIndex()
    ensures fresh(tree) && tree.State() == AppendAll(live.State(), leaves)
  {
    hide Pow2, Insert;
    tree := live.Clone();
    for i := 0 to |leaves|
      invariant fresh(tree) && tree.index >= tree.StartIndex()
      invariant tree.State() == AppendAll(live.State(), leaves[..i])
    {
      assert leaves[..i + 1][..i] == leaves[..i];
      InsertKeepsStart(tree.State(), leaves[i]);
      tree.Insert(leaves[i], tree.index);
    }
    assert leaves[..|leaves|] == leaves;
  }

  /** A note of no positive amount, or one whose commitment the tree has indexed. */
  predicate IsIndexed(t: Tree, note: InputNote) {
    note.amount.Some? && note.amount.value > 0 ==> note.commitment.Some? && note.commitment.value in t.reverse
  }

  lemma IndexedAll(t: Tree, rows: seq<seq<InputNote>>)
    ensures (forall row :: row in rows ==> NotesPresent(t, row)) <==>
            (forall i, j :: 0 <= i < |rows| && 0 <= j < |rows[i]| ==> IsIndexed(t, rows[i][j]))
  {
    forall i | 0 <= i < |rows| ensures NotesPresent(t, rows[i]) <==> forall j :: 0 <= j < |rows[i]| ==> IsIndexed(t, rows[i][j]) {
      forall j | 0 <= j < |rows[i]| && NotesPresent(t, rows[i]) ensures IsIndexed(t, rows[i][j]) { assert rows[i][j] in rows[i]; }
    }
    forall row | row in rows && forall i, j :: 0 <= i < |rows| && 0 <= j < |rows[i]| ==> IsIndexed(t, rows[i][j]) ensures NotesPresent(t, row) {
      var i :| 0 <= i < |rows| && rows[i] == row;
    }
  }

  /** Every positive input note's commitment must be in the tree. */
  method CheckNotes(tree: MerkleTree.SparseTree, inputNotes: seq<seq<InputNote>>) returns (r: Result<(), string>)
    ensures r.Ok? <==> forall row :: row in inputNotes ==> NotesPresent(tree.State(), row)
    ensures r.Ok? <==> forall i, j :: 0 <= i < |inputNotes| && 0 <= j < |inputNotes[i]| ==> IsIndexed(tree.State(), inputNotes[i][j])
  {
    hide IsIndexed;
    IndexedAll(tree.State(), inputNotes);
    for i := 0 to |inputNotes|
      invariant forall row :: row in inputNotes[..i] ==> NotesPresent(tree.State(), row)
    {
      var row := inputNotes[i];
      for j := 0 to |row|
        invariant NotesPresent(tree.State(), row[..j])
      {
        var note := row[j];
        assert note in row;
        if IsPositive(note) {
          if note.commitment.None? {
            assert !NotesPresent(tree.State(), row) && row in inputNotes;
            return Err("cannot compute commitment");
          }
          var present := tree.Contains(note.commitment.value);
          if !present {
            assert !NotesPresent(tree.State(), row) && row in inputNotes;
            return Err("input commitment is not in the speculative Merkle tree");
          }
        }
      }
      assert row[..|row|] == row;
    }
    assert inputNotes[..|inputNotes|] == inputNotes;
    r := Ok(());
  }

  /** The call: it changes nothing that existed, and returns the live tree or a new one. */
  method SpeculativeMerkleTree(live: MerkleTree.SparseTree, inputNotes: seq<seq<InputNote>>, pending: seq<Option<int>>)
    returns (r: Result<MerkleTree.SparseTree, string>)
    requires live.index >= live.StartIndex()
    ensures !AllParsed(pending) ==> r.Err?
    ensures AllParsed(pending) && PartlyIndexed(live.State(), Parsed(pending)) ==>
      r == Err("only some pending leaves are already in the Merkle tree")
    ensures AllParsed(pending) && !PartlyIndexed(live.State(), Parsed(pending)) ==>
      (r.Ok? <==> forall row :: row in inputNotes ==> NotesPresent(ChosenTree(live.State(), Parsed(pending)), row))
    ensures r.Ok? ==> ShowsPending(live.State(), r.value.State(), r.value == live, pending)
    ensures r.Ok? ==>
      AllParsed(pending) && r.value.State() == ChosenTree(live.State(), Parsed(pending)) && (r.value == live || fresh(r.value))
  {
    hide Pow2, Insert, ShowsPending;
    var leaves: seq<int> := [];
    var presentLeafCount := 0;
    for i := 0 to |pending|
      invariant AllParsed(pending[..i]) && leaves == Parsed(pending[..i])
      invariant presentLeafCount == PresentCount(live.State(), leaves)
    {
      if pending[i].None? {
        assert pending[i] in pending;
        return Err("cannot parse commitment");
      }
      var leaf := pending[i].value;
      ghost var before := leaves;
      leaves := leaves + [leaf];
      assert leaves[..|leaves| - 1] == before;
      assert pending[..i + 1] == pending[..i] + [pending[i]];
      var present := live.Contains(leaf);
      if present {
        presentLeafCount := presentLeafCount + 1;
      }
    }
    assert pending[..|pending|] == pending;
    assert leaves == Parsed(pending);
    PresentCountBounds(live.State(), leaves);
    if presentLeafCount > 0 && presentLeafCount != |leaves| {
      return Err("only some pending leaves are already in the Merkle tree");
    }

    var tree := live;
    if presentLeafCount != |leaves| {
      tree := CloneAndAppend(live, leaves);
    }
    var checked := CheckNotes(tree, inputNotes);
    if checked.Err? {
      return Err(checked.error);
    }
    if presentLeafCount == |leaves| { PendingIndexed(live.State(), pending, leaves); } else { PendingAppended(live.State(), pending, leaves); }
    r := Ok(tree);
  }

  /** All pending leaves are indexed and the tree is the live one; or none is, and it is another one that continues with them in order, if there is room. */
  ghost predicate ShowsPending(live: Tree, tree: Tree, same: bool, pending: seq<Option<int>>) {
    && (forall i :: 0 <= i < |pending| ==> pending[i].Some?)
    && (same ==> tree == live && forall i :: 0 <= i < |pending| ==> pending[i].value in live.reverse)
    && (!same ==> pending != [] && (forall i :: 0 <= i < |pending| ==> pending[i].value !in live.reverse)
                  && (Valid(live) && live.index + |pending| <= 2 * live.Start() ==>
                        Valid(tree) && exists leaves :: Extends(tree, live, leaves) && IsList(leaves, pending)))
  }

  predicate IsList(leaves: seq<int>, pending: seq<Option<int>>) {
    |leaves| == |pending| && forall i :: 0 <= i < |leaves| ==> pending[i] == Some(leaves[i])
  }

  lemma PendingIndexed(live: Tree, pending: seq<Option<int>>, leaves: seq<int>)
    requires AllParsed(pending) && leaves == Parsed(pending) && PresentCount(live, leaves) == |leaves|
    ensures ShowsPending(live, live, true, pending)
  {
    hide Valid, Extends, PresentCount;
    PresentCountBounds(live, leaves);
    forall i | 0 <= i < |pending| ensures pending[i].Some? && pending[i].value in live.reverse {
      assert pending[i] in pending && leaves[i] == pending[i].value && leaves[i] in leaves;
    }
  }

  lemma PendingAppended(live: Tree, pending: seq<Option<int>>, leaves: seq<int>)
    requires AllParsed(pending) && leaves == Parsed(pending) && PresentCount(live, leaves) == 0 && leaves != []
    ensures ShowsPending(live, AppendAll(live, leaves), false, pending)
  {
    hide Valid, Extends, PresentCount, AppendAll;
    PresentCountBounds(live, leaves);
    forall i | 0 <= i < |pending| ensures pending[i].Some? && pending[i].value !in live.reverse {
      assert pending[i] in pending && leaves[i] == pending[i].value && leaves[i] in leaves;
    }
    if Valid(live) && live.index + |pending| <= 2 * live.Start() {
      AppendAllExtends(live, leaves);
      assert Extends(AppendAll(live, leaves), live, leaves) && IsList(leaves, pending);
    }
  }

  lemma InsertKeepsStart(t: Tree, leaf: int)
    requires t.index >= t.Start()
    ensures Insert(t, leaf, t.index).levels == t.levels && Insert(t, leaf, t.index).index >= t.index
  {
    hide Climb;
    InsertIsClimb(t, leaf, t.index);
    ClimbFrame(Placed(t, leaf, t.index), t.index, Placed(t, leaf, t.index).Height());
  }
}
