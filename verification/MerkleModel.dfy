/**
 The sparse incremental Merkle tree as a value: a map from heap-numbered nodes to hashes, an index
 from values back to leaf slots, the number of leaves and the next free slot. The hash function and
 the value read for absent nodes are parameters of the tree.
 */
module MerkleModel {
  import opened Wrappers
  import opened Bits

  type HashFunc = (int, int) -> int
  type Levels = n: nat | n >= 1 witness 1

  const MERKLE_LEVELS: nat := 200
  const CIRCOM_MERKLE_LENGTH: nat := 25

  datatype Tree = Tree(
    hash: HashFunc,
    levels: Levels,
    defaultValue: int,
    nodes: map<nat, int>,
    reverse: map<int, nat>,
    count: int,
    index: nat)
  {
    /** First slot of the leaf row. */
    function Start(): nat
    {
      Pow2(levels - 1)
    }

    /** Height of the part of the tree in use. */
    function Height(): nat
    {
      CeilLog2(index - Start())
    }

    function Get(x: nat): int {
      if x in nodes then nodes[x] else defaultValue
    }

    predicate IsLeafSlot(x: nat)
    {
      Start() <= x < 2 * Start()
    }

    predicate Complete()
    {
      count == index - Start()
    }
  }

  ghost predicate NeverZero(hash: HashFunc) {
    forall a, b :: hash(a, b) != 0
  }

  function New(hash: HashFunc, defaultValue: int, levels: nat): Tree {
    var levels' := if levels == 0 then MERKLE_LEVELS else levels;
    Tree(hash, levels', defaultValue, map[], map[], 0, Pow2(levels' - 1))
  }

  /** Recomputes the k nodes above cur, lowest first, from their current children. */
  function Climb(t: Tree, cur: nat, k: nat): Tree
    decreases k
  {
    if k == 0 then t
    else
      var c := cur / 2;
      Climb(Rehash(t, c), c, k - 1)
  }

  /** Node c recomputed from its two current children. */
  function Rehash(t: Tree, c: nat): Tree {
    t.(nodes := t.nodes[c := t.hash(t.Get(2 * c), t.Get(2 * c + 1))])
  }

  function ForceInsert(t: Tree, value: int, slot: nat): Tree
  {
    Climb(t.(nodes := t.nodes[slot := value], reverse := t.reverse[value := slot]), slot, t.Height())
  }

  function Insert(t: Tree, value: int, slot: nat): Tree
  {
    var t1 := if slot in t.nodes then t else t.(count := t.count + 1);
    var t2 := if slot + 1 > t1.index then t1.(index := slot + 1) else t1;
    ForceInsert(t2, value, slot)
  }

  function Remove(t: Tree, slot: nat): Tree
  {
    ForceInsert(t, t.defaultValue, slot)
  }

  /** The value of the first non-zero node among Pow2(j), Pow2(j + 1), ... above row `levels`. */
  function FirstOnSpine(t: Tree, j: nat): int
    decreases t.levels - j
  {
    if j >= t.levels then t.defaultValue
    else if Pow2(j) in t.nodes && t.nodes[Pow2(j)] != 0 then t.nodes[Pow2(j)]
    else FirstOnSpine(t, j + 1)
  }

  function RootHash(t: Tree): Result<int, string>
  {
    if t.Complete() then Ok(FirstOnSpine(t, 0)) else Err("merkle tree is incomplete")
  }

  // ---------------------------------------------------------------------------------------------
  // The reference: a root computed recursively from a list of leaves, by halving the list.

  function Min(a: int, b: int): int { if a <= b then a else b }

  function RootOf(hash: HashFunc, default: int, h: nat, leaves: seq<int>): int
    decreases h
  {
    if leaves == [] then default
    else if h == 0 then leaves[0]
    else
      var mid := Min(|leaves|, Pow2(h - 1));
      hash(RootOf(hash, default, h - 1, leaves[..mid]), RootOf(hash, default, h - 1, leaves[mid..]))
  }

  function RootFromScratch(hash: HashFunc, default: int, leaves: seq<int>): int {
    RootOf(hash, default, CeilLog2(|leaves|), leaves)
  }

  /** The leaves in [Start, index); a missing one reads as the default. */
  function Leaves(t: Tree): (s: seq<int>)
    requires t.index >= t.Start()
  {
    seq(t.index - t.Start(), i requires 0 <= i => t.Get(t.Start() + i))
  }

  /** Every slot from the first one up to the index holds a leaf. */
  ghost predicate Filled(t: Tree)
  {
    forall x :: t.Start() <= x < t.index ==> x in t.nodes
  }

  // ---------------------------------------------------------------------------------------------
  // The invariant.

  /** If node x is stored, it is the hash of its two current children. */
  ghost predicate HashedAt(t: Tree, x: nat) {
    x in t.nodes ==> t.nodes[x] == t.hash(t.Get(2 * x), t.Get(2 * x + 1))
  }

  /** Every inner node is hashed, except possibly node c. */
  ghost predicate HashesExcept(t: Tree, c: nat) {
    forall x: nat :: 1 <= x < t.Start() && x != c ==> HashedAt(t, x)
  }

  ghost predicate Hashed(t: Tree)
  {
    HashesExcept(t, 0)
  }

  /** The k nodes above cur. */
  function Path(cur: nat, k: nat): set<nat>
    decreases k
  {
    if k == 0 then {} else {cur / 2} + Path(cur / 2, k - 1)
  }

  /** x is above the slot, no higher than a tree with this index. */
  ghost predicate Above(start: nat, index: nat, x: nat, slot: nat) {
    x in Path(slot, CeilLog2(index - start))
  }

  /** A stored leaf has all the ancestors that were in use when the index first passed it. */
  ghost predicate Climbed(t: Tree) {
    forall x :: x in t.nodes && x >= t.Start() ==> Path(x, CeilLog2(x - t.Start() + 1)) <= t.nodes.Keys
  }

  /** A node in use: a slot below the index, or above such a slot but no higher than the tree. */
  ghost predicate InUse(start: nat, index: nat, x: nat) {
    start <= x < index || exists l: nat :: start <= l < index && Above(start, index, x, l)
  }

  ghost predicate OnlyInUse(t: Tree) {
    forall x :: x in t.nodes ==> InUse(t.Start(), t.index, x)
  }

  function LeafSlots(t: Tree): set<nat> {
    set x | x in t.nodes && x >= t.Start()
  }

  ghost predicate Bounded(t: Tree) {
    && t.Start() <= t.index <= 2 * t.Start()
    && (t.index > t.Start() ==> t.index - 1 in t.nodes)
  }

  ghost predicate Valid(t: Tree) {
    && Bounded(t)
    && OnlyInUse(t)
    && Hashed(t)
    && Climbed(t)
    && t.count == |LeafSlots(t)|
  }

  lemma NewIsValid(hash: HashFunc, defaultValue: int, levels: nat)
    ensures Valid(New(hash, defaultValue, levels))
  {
    var t := New(hash, defaultValue, levels);
    assert LeafSlots(t) == {};
  }

  // --- What one climb does.

  lemma {:induction false} PathMember(cur: nat, k: nat, h: nat)
    requires 1 <= h <= k
    ensures Ancestor(cur, h) in Path(cur, k)
    decreases k
  {
    if h > 1 { PathMember(cur / 2, k - 1, h - 1); }
  }

  lemma {:induction false} PathHeight(cur: nat, k: nat, x: nat) returns (h: nat)
    requires x in Path(cur, k)
    ensures 1 <= h <= k && Ancestor(cur, h) == x
    decreases k
  {
    if x == cur / 2 { h := 1; } else { h := PathHeight(cur / 2, k - 1, x); h := h + 1; }
  }

  lemma {:induction false} PathGrows(cur: nat, k: nat, k': nat)
    requires k <= k'
    ensures Path(cur, k) <= Path(cur, k')
    decreases k
  {
    if k > 0 { PathGrows(cur / 2, k - 1, k' - 1); }
  }

  lemma {:induction false} ClimbFrame(t: Tree, cur: nat, k: nat)
    ensures Climb(t, cur, k) == t.(nodes := Climb(t, cur, k).nodes)
    ensures Climb(t, cur, k).nodes.Keys == t.nodes.Keys + Path(cur, k)
    ensures forall x :: x in t.nodes && x > cur / 2 ==> Climb(t, cur, k).nodes[x] == t.nodes[x]
    decreases k
  {
    if k > 0 {
      var c := cur / 2;
      var t' := Rehash(t, c);
      ClimbFrame(t', c, k - 1);
    }
  }

  /** Climbing moves the one broken hash up the path. */
  lemma {:induction false} ClimbHashes(t: Tree, cur: nat, k: nat)
    requires HashesExcept(t, cur / 2)
    ensures HashesExcept(Climb(t, cur, k), Ancestor(cur, k) / 2)
    decreases k
  {
    if k > 0 {
      var c := cur / 2;
      var t' := Rehash(t, c);
      assert HashesExcept(t', c / 2) by {
        forall x: nat | 1 <= x < t.Start() && x != c / 2 ensures HashedAt(t', x) {
          assert x != c ==> HashedAt(t, x);
        }
      }
      ClimbHashes(t', c, k - 1);
    }
  }

  // --- Insertion and removal keep the invariant.

  lemma CeilLog2Monotone(a: int, b: int)
    requires a <= b
    ensures CeilLog2(a) <= CeilLog2(b)
  {
    CeilLog2Bounds(b);
    CeilLog2Least(a, CeilLog2(b));
  }

  /** A tree whose index stays in the leaf row is no higher than its levels allow. */
  lemma HeightInRow(t: Tree)
    requires t.Start() <= t.index <= 2 * t.Start()
    ensures t.Height() <= t.levels - 1
  {
    CeilLog2Least(t.index - t.Start(), t.levels - 1);
  }

  /** Where a node in use lies: on row levels - 1 - h for some h up to the height, above the slot returned. */
  lemma InUseRow(t: Tree, x: nat) returns (l: nat, h: nat)
    requires t.Start() <= t.index <= 2 * t.Start() && InUse(t.Start(), t.index, x)
    ensures t.Start() <= l < t.index && h <= t.Height() <= t.levels - 1 && Ancestor(l, h) == x
    ensures Pow2(t.levels - 1 - h) <= x < Pow2(t.levels - h)
  {
    hide Path, Climb, CeilLog2;
    HeightInRow(t);
    if t.Start() <= x < t.index {
      l, h := x, 0;
    } else {
      l :| t.Start() <= l < t.index && Above(t.Start(), t.index, x, l);
      h := PathHeight(l, t.Height(), x);
    }
    AncestorRow(l, t.levels - 1, h);
  }

  /** A node above the tree's height is not stored. */
  lemma AboveHeightAbsent(t: Tree, l: nat)
    requires Bounded(t) && OnlyInUse(t) && t.IsLeafSlot(l)
    ensures Ancestor(l, t.Height() + 1) !in t.nodes
  {
    hide Path, Climb, CeilLog2;
    var k := t.Height();
    var c := Ancestor(l, k + 1);
    if c in t.nodes {
      var _, h := InUseRow(t, c);
      if k + 1 <= t.levels - 1 {
        AncestorRow(l, t.levels - 1, k + 1);
        RowUnique(c, t.levels - 1 - h, t.levels - 1 - (k + 1));
      } else {
        AncestorStep(l, k);
        AncestorRow(l, t.levels - 1, k);
      }
    }
  }

  /** Nodes on the path above a leaf slot are inner nodes. */
  lemma PathIsInner(t: Tree, slot: nat)
    requires t.Start() <= slot < t.index <= 2 * t.Start()
    ensures forall x :: x in Path(slot, t.Height()) ==> 1 <= x < t.Start()
  {
    hide Path, Climb, CeilLog2, Ancestor;
    HeightInRow(t);
    forall x | x in Path(slot, t.Height()) ensures 1 <= x < t.Start() {
      var h := PathHeight(slot, t.Height(), x);
      AncestorRow(slot, t.levels - 1, h);
      Pow2Monotone(t.levels - 1 - h + 1, t.levels - 1);
    }
  }

  /** Raising the index keeps every node in use. */
  lemma InUseGrows(start: nat, index: nat, index': nat)
    requires index <= index'
    ensures forall x: nat :: InUse(start, index, x) ==> InUse(start, index', x)
  {
    CeilLog2Monotone(index - start, index' - start);
    forall x: nat | InUse(start, index, x) ensures InUse(start, index', x) {
      if !(start <= x < index) {
        var l: nat :| start <= l < index && Above(start, index, x, l);
        PathGrows(l, CeilLog2(index - start), CeilLog2(index' - start));
        assert Above(start, index', x, l);
      }
    }
  }

  ghost predicate Written(t: Tree, slot: nat) {
    Bounded(t) && OnlyInUse(t) && t.Start() <= slot < t.index && slot in t.nodes
  }

  lemma ClimbOnlyInUse(w: Tree, slot: nat)
    requires Written(w, slot)
    ensures var t := Climb(w, slot, w.Height());
            Bounded(t) && OnlyInUse(t) && LeafSlots(t) == LeafSlots(w)
  {
    hide Path, Climb, Pow2, CeilLog2, Ancestor;
    ClimbFrame(w, slot, w.Height());
    PathIsInner(w, slot);
    assert forall x :: x in Path(slot, w.Height()) ==> Above(w.Start(), w.index, x, slot);
  }

  lemma ClimbHashed(w: Tree, slot: nat)
    requires Written(w, slot) && HashesExcept(w, slot / 2)
    ensures Hashed(Climb(w, slot, w.Height()))
  {
    hide Path, Climb, Pow2, CeilLog2, Ancestor;
    var k := w.Height();
    var t := Climb(w, slot, k);
    ClimbOnlyInUse(w, slot);
    ClimbFrame(w, slot, k);
    ClimbHashes(w, slot, k);
    AncestorStep(slot, k);
    AboveHeightAbsent(t, slot);
    StoredIsPositive(t);
  }

  lemma StoredIsPositive(t: Tree)
    requires Bounded(t) && OnlyInUse(t)
    ensures forall x :: x in t.nodes ==> 1 <= x < t.index
  {
    hide Path, Climb, Pow2, CeilLog2, Ancestor;
    forall x | x in t.nodes ensures 1 <= x < t.index {
      var l, h := InUseRow(t, x);
      AncestorAtMost(l, h);
    }
  }

  lemma {:induction false} AncestorAtMost(l: nat, h: nat)
    ensures Ancestor(l, h) <= l
  {
    if h > 0 { AncestorAtMost(l / 2, h - 1); }
  }

  ghost predicate ClimbedExcept(t: Tree, slot: nat) {
    forall x :: x in t.nodes && x >= t.Start() && x != slot ==> Path(x, CeilLog2(x - t.Start() + 1)) <= t.nodes.Keys
  }

  lemma ClimbClimbed(w: Tree, slot: nat)
    requires Written(w, slot) && ClimbedExcept(w, slot)
    ensures Climbed(Climb(w, slot, w.Height()))
  {
    hide Path, Climb, Pow2, CeilLog2, Ancestor;
    var k := w.Height();
    var t := Climb(w, slot, k);
    ClimbFrame(w, slot, k);
    CeilLog2Monotone(slot - w.Start() + 1, w.index - w.Start());
    PathGrows(slot, CeilLog2(slot - w.Start() + 1), k);
    PathIsInner(w, slot);
  }

  /** Everything but the count survives writing a leaf below the index. */
  lemma ClimbIsValid(w: Tree, slot: nat)
    requires Written(w, slot) && HashesExcept(w, slot / 2) && ClimbedExcept(w, slot) && w.count == |LeafSlots(w)|
    ensures var t := Climb(w, slot, w.Height());
            && Valid(t)
            && t == w.(nodes := t.nodes)
            && LeafSlots(t) == LeafSlots(w)
            && forall x :: x in LeafSlots(w) ==> t.nodes[x] == w.nodes[x]
  {
    hide Path, Climb, Pow2, CeilLog2, Ancestor;
    ClimbFrame(w, slot, w.Height());
    ClimbOnlyInUse(w, slot);
    ClimbHashed(w, slot);
    ClimbClimbed(w, slot);
  }

  /** The tree as Insert hands it to the climb. */
  function Placed(t: Tree, value: int, slot: nat): Tree {
    t.(count := if slot in t.nodes then t.count else t.count + 1,
       index := if slot + 1 > t.index then slot + 1 else t.index,
       nodes := t.nodes[slot := value],
       reverse := t.reverse[value := slot])
  }

  /** Writing one leaf breaks at most its parent. */
  lemma PlacedHashes(t: Tree, w: Tree, slot: nat)
    requires Hashed(t) && slot >= t.Start() && slot in w.nodes
    requires w.hash == t.hash && w.levels == t.levels && w.defaultValue == t.defaultValue
    requires w.nodes == t.nodes[slot := w.nodes[slot]]
    ensures HashesExcept(w, slot / 2)
  {
    hide Path, Climb, Pow2, CeilLog2, Ancestor, InUse;
    forall x: nat | 1 <= x < w.Start() && x != slot / 2 ensures HashedAt(w, x) {
      assert HashedAt(t, x);
    }
  }

  lemma PlacedIsWritten(t: Tree, value: int, slot: nat)
    requires Valid(t) && t.IsLeafSlot(slot)
    ensures var w := Placed(t, value, slot);
            Written(w, slot) && HashesExcept(w, slot / 2) && ClimbedExcept(w, slot)
  {
    hide Path, Climb, Pow2, CeilLog2, Ancestor;
    var w := Placed(t, value, slot);
    InUseGrows(t.Start(), t.index, w.index);
    PlacedHashes(t, w, slot);
    assert t.nodes.Keys <= w.nodes.Keys;
  }

  /** An insertion into the leaf row, at any slot and in any order, keeps the invariant and changes no other leaf. */
  lemma InsertIsValid(t: Tree, value: int, slot: nat)
    requires Valid(t) && t.IsLeafSlot(slot)
    ensures var t' := Insert(t, value, slot);
            && Valid(t')
            && LeafSlots(t') == LeafSlots(t) + {slot}
            && t'.nodes[slot] == value
            && (forall x :: x in LeafSlots(t) && x != slot ==> t'.nodes[x] == t.nodes[x])
            && t' == Placed(t, value, slot).(nodes := t'.nodes)
  {
    hide Path, Climb, Pow2, CeilLog2, Ancestor, InUse;
    var w := Placed(t, value, slot);
    InsertIsClimb(t, value, slot);
    PlacedIsWritten(t, value, slot);
    PlacedCount(t, value, slot);
    ClimbIsValid(w, slot);
  }

  lemma InsertIsClimb(t: Tree, value: int, slot: nat)
    ensures Insert(t, value, slot) == Climb(Placed(t, value, slot), slot, Placed(t, value, slot).Height())
  {
    hide Climb, Pow2, CeilLog2;
  }

  lemma PlacedCount(t: Tree, value: int, slot: nat)
    requires t.count == |LeafSlots(t)| && slot >= t.Start()
    ensures var w := Placed(t, value, slot);
            LeafSlots(w) == LeafSlots(t) + {slot} && w.count == |LeafSlots(w)|
  {
    hide Pow2;
    var w := Placed(t, value, slot);
    assert w.Start() == t.Start();
    forall x ensures x in LeafSlots(w) <==> x in LeafSlots(t) + {slot} {
      assert x in w.nodes <==> x in t.nodes || x == slot;
    }
    assert LeafSlots(w) == LeafSlots(t) + {slot};
    if slot in t.nodes {
      assert slot in LeafSlots(t);
      assert LeafSlots(t) + {slot} == LeafSlots(t);
    } else {
      assert slot !in LeafSlots(t);
      assert |LeafSlots(t) + {slot}| == |LeafSlots(t)| + 1;
    }
  }

  /** Slots past the leaf row are accepted too: the tree stays valid exactly when the slot is in the row. */
  lemma InsertValidIff(t: Tree, value: int, slot: nat)
    requires Valid(t) && slot >= t.Start()
    ensures Valid(Insert(t, value, slot)) <==> t.IsLeafSlot(slot)
  {
    hide Climb, Pow2, CeilLog2, Path, OnlyInUse, Hashed, Climbed;
    if t.IsLeafSlot(slot) {
      InsertIsValid(t, value, slot);
    } else {
      InsertIsClimb(t, value, slot);
      ClimbFrame(Placed(t, value, slot), slot, Placed(t, value, slot).Height());
    }
  }

  /** A climb leaves every node on its path the hash of its two current children, whatever the tree was. */
  lemma {:induction false} ClimbWritesAt(t: Tree, cur: nat, k: nat, i: nat)
    requires 1 <= i <= k && Ancestor(cur, i) >= 1
    ensures var t', a := Climb(t, cur, k), Ancestor(cur, i);
            a in t'.nodes && t'.nodes[a] == t'.hash(t'.Get(2 * a), t'.Get(2 * a + 1))
    decreases k
  {
    var c := cur / 2;
    var t1 := Rehash(t, c);
    if i > 1 {
      ClimbWritesAt(t1, c, k - 1, i - 1);
    } else {
      ClimbFrame(t1, c, k - 1);
      PathBelow(c, k - 1);
      assert forall x :: x > c / 2 ==> Climb(t1, c, k - 1).Get(x) == t1.Get(x);
    }
  }

  lemma {:induction false} PathBelow(cur: nat, k: nat)
    ensures forall x :: x in Path(cur, k) ==> x <= cur / 2
    decreases k
  {
    if k > 0 { PathBelow(cur / 2, k - 1); }
  }

  /** In every tree, a slot past the leaf row has an ancestor in the row, and inserting at the slot overwrites that leaf with a hash. */
  lemma PastRowOverwritesLeaf(t: Tree, value: int, slot: nat) returns (k: nat)
    requires slot >= 2 * t.Start()
    ensures var t', a := Insert(t, value, slot), Ancestor(slot, k);
            k >= 1 && t.IsLeafSlot(a) && a in t'.nodes && t'.nodes[a] == t'.hash(t'.Get(2 * a), t'.Get(2 * a + 1))
  {
    hide Climb, Ancestor, BitLen, Pow2;
    var w, row := Placed(t, value, slot), BitLen(slot) - 1;
    BitLenBounds(slot);
    Doubles(t.levels);
    if row < t.levels { Pow2Monotone(row + 1, t.levels); }
    k := row - (t.levels - 1);
    AncestorRow(slot, row, k);
    Doubles(row);
    Pow2Monotone(t.levels - 1, row - 1);
    Pow2Monotone(k - 1, row - 1);
    CeilLog2Least(w.index - w.Start(), k - 1);
    InsertIsClimb(t, value, slot);
    ClimbWritesAt(w, slot, w.Height(), k);
    ClimbFrame(w, slot, w.Height());
  }

  lemma Doubles(a: nat)
    requires a > 0
    ensures Pow2(a) == 2 * Pow2(a - 1)
  {
  }

  /** Removing writes the default over a leaf and never counts it: the tree stays valid exactly when the leaf was there. */
  lemma RemoveValidIff(t: Tree, slot: nat)
    requires Valid(t) && t.IsLeafSlot(slot)
    ensures Valid(Remove(t, slot)) <==> slot in t.nodes
    ensures slot in t.nodes ==> LeafSlots(Remove(t, slot)) == LeafSlots(t) && Remove(t, slot).Get(slot) == t.defaultValue
  {
    if slot in t.nodes {
      RemovePresent(t, slot);
    } else {
      RemoveAbsent(t, slot);
    }
  }

  lemma RemovePresent(t: Tree, slot: nat)
    requires Valid(t) && t.IsLeafSlot(slot) && slot in t.nodes
    ensures var t' := Remove(t, slot);
            && Valid(t')
            && LeafSlots(t') == LeafSlots(t)
            && t'.Get(slot) == t.defaultValue
            && (forall x :: x in LeafSlots(t) && x != slot ==> t'.nodes[x] == t.nodes[x])
            && t' == t.(nodes := t'.nodes, reverse := t.reverse[t.defaultValue := slot])
  {
    hide Path, Climb, Pow2, CeilLog2, Ancestor, InUse;
    var w := t.(nodes := t.nodes[slot := t.defaultValue], reverse := t.reverse[t.defaultValue := slot]);
    StoredIsPositive(t);
    assert LeafSlots(w) == LeafSlots(t);
    PlacedHashes(t, w, slot);
    assert w.nodes.Keys == t.nodes.Keys;
    assert Written(w, slot);
    ClimbIsValid(w, slot);
    assert Remove(t, slot) == Climb(w, slot, w.Height());
  }

  lemma RemoveAbsent(t: Tree, slot: nat)
    requires Valid(t) && t.IsLeafSlot(slot) && slot !in t.nodes
    ensures !Valid(Remove(t, slot))
  {
    hide Path, Climb, Pow2, CeilLog2, Ancestor, InUse;
    var w := t.(nodes := t.nodes[slot := t.defaultValue], reverse := t.reverse[t.defaultValue := slot]);
    ClimbFrame(w, slot, t.Height());
    assert slot in LeafSlots(Remove(t, slot)) && slot !in LeafSlots(t);
    SubsetSize(LeafSlots(t) + {slot}, LeafSlots(Remove(t, slot)));
  }

  lemma SubsetSize<T>(a: set<T>, b: set<T>)
    requires a <= b
    ensures |a| <= |b|
    ensures |a| == |b| ==> a == b
  {
    assert b == a + (b - a);
    assert |b| == |a| + |b - a|;
  }
}
