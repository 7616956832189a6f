/**
 Authentication paths: the sibling hashes and sides handed to the circuit, and the fold that turns
 them back into the root. Also the reverse index the paths start from, and what keeps it exact.
 */
module MerklePaths {
  import opened Wrappers
  import opened Bits
  import opened MerkleModel
  import opened MerkleRoot

  /** The other child of x's parent; the root is its own sibling. */
  function SiblingIndex(x: nat): nat
    requires x >= 1
  {
    if x == 1 then 1 else if x % 2 == 1 then x - 1 else x + 1
  }

  function Siblings(t: Tree, x: nat): seq<int> {
    if x == 0 then [] else [t.Get(SiblingIndex(x))] + Siblings(t, x / 2)
  }

  /** 0 for a left child, 1 for a right child, from x to the root. */
  function Sides(x: nat): seq<int> {
    if x == 0 then [] else [x % 2] + Sides(x / 2)
  }

  function SliceFirst(values: seq<int>): seq<int> {
    if |values| <= CIRCOM_MERKLE_LENGTH then values else values[..CIRCOM_MERKLE_LENGTH]
  }

  function ZeroSlice(): seq<int> {
    seq(CIRCOM_MERKLE_LENGTH, _ => 0)
  }

  function SiblingHashes(t: Tree, item: int): Result<seq<int>, string> {
    if !t.Complete() then Err("merkle tree is incomplete")
    else if item !in t.reverse then Ok(ZeroSlice())
    else Ok(SliceFirst(Siblings(t, t.reverse[item])))
  }

  function SiblingSides(t: Tree, item: int): Result<seq<int>, string> {
    if !t.Complete() then Err("merkle tree is incomplete")
    else if item !in t.reverse then Ok(ZeroSlice())
    else Ok(SliceFirst(Sides(t.reverse[item])))
  }

  /** What the circuit computes from a leaf, its sibling hashes and their sides. */
  function FoldPath(hash: HashFunc, value: int, siblings: seq<int>, sides: seq<int>): int
    requires |siblings| == |sides|
    decreases |siblings|
  {
    if siblings == [] then value
    else
      FoldPath(hash, if sides[0] == 0 then hash(value, siblings[0]) else hash(siblings[0], value), siblings[1..], sides[1..])
  }

  lemma {:induction false} PathLengths(t: Tree, x: nat, a: nat)
    requires Pow2(a) <= x < Pow2(a + 1)
    ensures |Siblings(t, x)| == |Sides(x)| == a + 1
  {
    if a > 0 { PathLengths(t, x / 2, a - 1); }
  }

  lemma {:induction false} SiblingAt(t: Tree, x: nat, i: nat)
    requires i < |Siblings(t, x)|
    ensures Ancestor(x, i) >= 1 && Siblings(t, x)[i] == t.Get(SiblingIndex(Ancestor(x, i)))
    decreases i
  {
    if i > 0 { SiblingAt(t, x / 2, i - 1); }
  }

  ghost predicate HashedPath(t: Tree, x: nat, m: nat) {
    forall i :: 1 <= i <= m ==>
      Ancestor(x, i) >= 1 && Ancestor(x, i) in t.nodes && HashedAt(t, Ancestor(x, i))
  }

  /** Folding m siblings climbs m levels. */
  lemma {:induction false} FoldClimbs(t: Tree, x: nat, m: nat)
    requires HashedPath(t, x, m) && m <= |Siblings(t, x)| && m <= |Sides(x)|
    ensures FoldPath(t.hash, t.Get(x), Siblings(t, x)[..m], Sides(x)[..m]) == t.Get(Ancestor(x, m))
    decreases m
  {
    if m > 0 {
      var p := x / 2;
      assert Ancestor(x, 1) == p;
      forall i | 1 <= i <= m - 1
        ensures Ancestor(p, i) >= 1 && Ancestor(p, i) in t.nodes && HashedAt(t, Ancestor(p, i))
      {
        assert Ancestor(x, i + 1) == Ancestor(p, i);
      }
      assert Siblings(t, x)[..m][1..] == Siblings(t, p)[..m - 1];
      assert Sides(x)[..m][1..] == Sides(p)[..m - 1];
      FoldClimbs(t, p, m - 1);
    }
  }

  // --- The reverse index.

  /** The item is still stored at the leaf slot the reverse index names. */
  ghost predicate StoredAt(t: Tree, item: int) {
    item in t.reverse && t.reverse[item] in LeafSlots(t) && t.nodes[t.reverse[item]] == item
  }

  /** Nothing in the reverse index is stale. */
  ghost predicate ReverseSound(t: Tree) {
    forall v :: v in t.reverse ==> StoredAt(t, v)
  }

  /** The reverse index is the exact inverse of the leaf map. */
  ghost predicate Indexed(t: Tree) {
    ReverseSound(t) && forall x :: x in LeafSlots(t) ==> t.nodes[x] in t.reverse && t.reverse[t.nodes[x]] == x
  }

  /** Filling a free slot leaves nothing stale; filling it with a new value keeps the inverse exact. */
  lemma InsertKeepsIndex(t: Tree, value: int, slot: nat)
    requires Valid(t) && t.IsLeafSlot(slot) && slot !in t.nodes
    ensures ReverseSound(t) ==> ReverseSound(Insert(t, value, slot))
    ensures Indexed(t) && value !in t.reverse ==> Indexed(Insert(t, value, slot))
  {
    hide Climb, Pow2, CeilLog2, Valid;
    InsertIsValid(t, value, slot);
    assert slot !in LeafSlots(t);
    var t' := Insert(t, value, slot);
    if ReverseSound(t) {
      forall v | v in t'.reverse ensures StoredAt(t', v) {
        if v != value { assert StoredAt(t, v); }
      }
    }
  }

  /** Overwriting a leaf with another value leaves the old value in the index: it is stale from then on. */
  lemma OverwriteIsStale(t: Tree, value: int, slot: nat)
    requires Valid(t) && Indexed(t) && slot in LeafSlots(t) && value != t.nodes[slot]
    ensures var t', old' := Insert(t, value, slot), t.nodes[slot];
            old' in t'.reverse && !StoredAt(t', old') && !ReverseSound(t')
  {
    hide Climb, Pow2, CeilLog2;
    StoredIsPositive(t);
    InsertIsValid(t, value, slot);
  }

  // --- Authentication paths of a complete tree.

  /** In a filled tree every ancestor of a stored leaf, up to the height, is stored and hashed. */
  lemma LeafPathHashed(t: Tree, x: nat)
    requires Valid(t) && Filled(t) && x in LeafSlots(t)
    ensures HashedPath(t, x, t.Height())
  {
    hide Climb, Path, Pow2, CeilLog2, Ancestor, FirstBelow;
    StoredIsPositive(t);
    HeightInRow(t);
    Pow2Step(t.levels);
    forall i | 1 <= i <= t.Height()
      ensures Ancestor(x, i) >= 1 && Ancestor(x, i) in t.nodes && HashedAt(t, Ancestor(x, i))
    {
      var p := Ancestor(x, i);
      AncestorRow(x, t.levels - 1, i);
      AncestorBlock(x, i, p);
      StoredIffUnderIndex(t, p, i);
      Pow2Monotone(t.levels - i, t.levels - 1);
    }
  }

  /** Above the height a leaf's ancestors run up the left spine. */
  lemma SpineAboveHeight(t: Tree, x: nat, i: nat)
    requires Valid(t) && x in LeafSlots(t) && t.Height() <= i <= t.levels - 1
    ensures Ancestor(x, i) == Pow2(t.levels - 1 - i)
  {
    hide Climb, Path, Pow2, CeilLog2, Ancestor, FirstBelow;
    StoredIsPositive(t);
    CeilLog2Bounds(t.index - t.Start());
    Pow2Monotone(t.Height(), i);
    FirstBelowPow2(t.levels - 1 - i, i);
    AncestorBlock(x, i, Pow2(t.levels - 1 - i));
  }

  /** From the height up, a leaf's siblings are absent, but for the root standing in as its own sibling. */
  lemma SiblingAboveHeight(t: Tree, x: nat, i: nat)
    requires Valid(t) && Filled(t) && x in LeafSlots(t) && t.Height() <= i <= t.levels - 1
    ensures Ancestor(x, i) >= 1
    ensures var s := SiblingIndex(Ancestor(x, i));
            if i == t.levels - 1 && t.Height() == t.levels - 1 then s == Pow2(t.levels - 1 - t.Height()) else s !in t.nodes
  {
    hide Climb, Path, Pow2, CeilLog2, Ancestor, FirstBelow;
    SpineAboveHeight(t, x, i);
    var row, k := t.levels - 1 - i, t.Height();
    var s := SiblingIndex(Pow2(row));
    Pow2Step(row + 1);
    if row > 0 { Pow2Step(row); } else { PowZero(); }
    if s in t.nodes {
      var l, h := InUseRow(t, s);
      RowUnique(s, t.levels - 1 - h, row);
      if i == k && row > 0 {
        CeilLog2Bounds(t.index - t.Start());
        FirstBelowPow2(row, i);
        FirstBelowNext(Pow2(row), i);
        AncestorBlock(l, h, s);
      }
    }
  }

  lemma PowZero()
    ensures Pow2(0) == 1
  {
  }

  /**
   In a complete tree of at most 2^25 leaves, any item still stored where the reverse index says
   folds, with its first Height siblings and sides, to the root; the siblings after those are the
   default, except that a tree using all its levels returns the root itself last.
   */
  lemma AuthenticationPath(t: Tree, item: int)
    requires Valid(t) && NeverZero(t.hash) && t.Complete() && StoredAt(t, item)
    requires t.index - t.Start() <= Pow2(CIRCOM_MERKLE_LENGTH)
    ensures var siblings, sides, root, k := SiblingHashes(t, item), SiblingSides(t, item), RootHash(t), t.Height();
            && siblings.Ok? && sides.Ok? && root.Ok?
            && k <= |siblings.value| == |sides.value| == Min(t.levels, CIRCOM_MERKLE_LENGTH)
            && var folded := FoldPath(t.hash, item, siblings.value[..k], sides.value[..k]);
            && root.value == ZeroAsDefault(folded, t.defaultValue)
            && forall i :: k <= i < |siblings.value| ==>
                 siblings.value[i] == (if i == k == t.levels - 1 then folded else t.defaultValue)
  {
    hide Climb, Path, Pow2, CeilLog2, Ancestor, FirstBelow, Siblings, Sides, FoldPath, FirstOnSpine, RootOf;
    var x, k := t.reverse[item], t.Height();
    CompleteIffFilled(t);
    RootHashIsRecursiveRoot(t);
    TopNode(t);
    StoredIsPositive(t);
    HeightInRow(t);
    CeilLog2Least(t.index - t.Start(), CIRCOM_MERKLE_LENGTH);
    Pow2Step(t.levels);
    PathLengths(t, x, t.levels - 1);
    LeafPathHashed(t, x);
    SpineAboveHeight(t, x, k);
    FoldClimbs(t, x, k);
    PowZero();
    assert SliceFirst(Siblings(t, x))[..k] == Siblings(t, x)[..k];
    assert SliceFirst(Sides(x))[..k] == Sides(x)[..k];
    forall i | k <= i < |SliceFirst(Siblings(t, x))|
      ensures SliceFirst(Siblings(t, x))[i] == (if i == k == t.levels - 1 then t.Get(1) else t.defaultValue)
    {
      SiblingAt(t, x, i);
      SiblingAboveHeight(t, x, i);
    }
  }
}
