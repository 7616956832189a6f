/**
 The incremental tree against the recursive root: for leaves written in any order, the root is
 available exactly when no slot is missing, and it is then the root computed from scratch.
 */
module MerkleRoot {
  import opened Wrappers
  import opened Bits
  import opened MerkleModel

  /** x lies on the row of height h. */
  ghost predicate OnRow(t: Tree, x: nat, h: nat) {
    h <= t.levels - 1 && Pow2(t.levels - 1 - h) <= x < Pow2(t.levels - h)
  }

  /** The leaves below node x of height h, as far as they lie below the index. */
  ghost function Under(t: Tree, x: nat, h: nat): seq<int>
    requires t.Start() <= t.index && t.Start() <= FirstBelow(x, h)
  {
    var n, a := t.index - t.Start(), FirstBelow(x, h) - t.Start();
    Leaves(t)[Min(a, n)..Min(a + Pow2(h), n)]
  }

  lemma RowBlock(t: Tree, x: nat, h: nat)
    requires OnRow(t, x, h)
    ensures t.Start() <= FirstBelow(x, h)
  {
    hide Pow2, FirstBelow;
    FirstBelowPow2(t.levels - 1 - h, h);
    FirstBelowMonotone(Pow2(t.levels - 1 - h), x, h);
  }

  /** In a filled tree the nodes stored up to the height are exactly those with a leaf below them. */
  lemma StoredIffUnderIndex(t: Tree, x: nat, h: nat)
    requires Valid(t) && Filled(t) && OnRow(t, x, h) && h <= t.Height()
    ensures x in t.nodes <==> FirstBelow(x, h) < t.index
  {
    hide Path, CeilLog2, Pow2, FirstBelow;
    if x in t.nodes {
      var l, h' := InUseRow(t, x);
      RowUnique(x, t.levels - 1 - h', t.levels - 1 - h);
      AncestorBlock(l, h, x);
    }
    if FirstBelow(x, h) < t.index {
      RowBlock(t, x, h);
      var p := Min(FirstBelow(x, h) + Pow2(h), t.index) - 1;
      AncestorBlock(p, h, x);
      assert p in t.nodes;
      if h > 0 {
        assert Pow2(h) == 2 * Pow2(h - 1) by { Pow2Step(h); }
        CeilLog2Least(t.index - t.Start(), h - 1);
        CeilLog2Least(p - t.Start() + 1, h - 1);
        assert Path(p, CeilLog2(p - t.Start() + 1)) <= t.nodes.Keys;
        PathMember(p, CeilLog2(p - t.Start() + 1), h);
      }
    }
  }

  lemma Pow2Step(h: nat)
    requires h > 0
    ensures Pow2(h) == 2 * Pow2(h - 1)
  {
  }

  /** The children of a node of height h split the leaves below it at Pow2(h - 1). */
  lemma UnderSplits(t: Tree, x: nat, h: nat)
    requires OnRow(t, x, h) && h > 0 && t.Start() <= t.index
    ensures OnRow(t, 2 * x, h - 1) && OnRow(t, 2 * x + 1, h - 1) && t.Start() <= FirstBelow(x, h)
    ensures t.Start() <= FirstBelow(2 * x, h - 1) && t.Start() <= FirstBelow(2 * x + 1, h - 1)
    ensures var s, mid := Under(t, x, h), Min(|Under(t, x, h)|, Pow2(h - 1));
            Under(t, 2 * x, h - 1) == s[..mid] && Under(t, 2 * x + 1, h - 1) == s[mid..]
  {
    hide Pow2, FirstBelow, OnRow;
    RowBlock(t, x, h);
    RowSplits(t, x, h);
    RowBlock(t, 2 * x, h - 1);
    RowBlock(t, 2 * x + 1, h - 1);
    BlockSplits(x, h);
    var n, a, half := t.index - t.Start(), FirstBelow(x, h) - t.Start(), Pow2(h - 1);
    SliceSplits(Leaves(t), n, a, half);
  }

  lemma RowSplits(t: Tree, x: nat, h: nat)
    requires OnRow(t, x, h) && h > 0
    ensures OnRow(t, 2 * x, h - 1) && OnRow(t, 2 * x + 1, h - 1)
  {
    assert Pow2(t.levels - h) == 2 * Pow2(t.levels - 1 - h);
    assert Pow2(t.levels - (h - 1)) == 2 * Pow2(t.levels - h);
  }

  lemma BlockSplits(x: nat, h: nat)
    requires h > 0
    ensures Pow2(h) == 2 * Pow2(h - 1) && FirstBelow(2 * x, h - 1) == FirstBelow(x, h)
    ensures FirstBelow(2 * x + 1, h - 1) == FirstBelow(x, h) + Pow2(h - 1)
  {
    FirstBelowNext(2 * x, h - 1);
  }

  /** A block of a list, cut off at n, splits in half. */
  lemma SliceSplits(s: seq<int>, n: nat, a: nat, half: nat)
    requires |s| == n
    ensures var block := s[Min(a, n)..Min(a + 2 * half, n)];
            var mid := Min(|block|, half);
            && s[Min(a, n)..Min(a + half, n)] == block[..mid]
            && s[Min(a + half, n)..Min(a + half + half, n)] == block[mid..]
  {
    var lo, hi := Min(a, n), Min(a + 2 * half, n);
    var mid := Min(hi - lo, half);
    assert lo + mid == Min(a + half, n) && hi == Min(a + half + half, n);
    SliceOfSlice(s, lo, mid, hi);
  }

  lemma SliceOfSlice(s: seq<int>, lo: nat, mid: nat, hi: nat)
    requires lo + mid <= hi <= |s|
    ensures s[lo..lo + mid] == s[lo..hi][..mid] && s[lo + mid..hi] == s[lo..hi][mid..]
  {
  }

  /** A node up to the height holds the from-scratch root of the leaves below it. */
  lemma {:induction false} NodeIsRootOfLeaves(t: Tree, x: nat, h: nat)
    requires Valid(t) && Filled(t) && OnRow(t, x, h) && h <= t.Height() && t.Start() <= FirstBelow(x, h)
    ensures t.Get(x) == RootOf(t.hash, t.defaultValue, h, Under(t, x, h))
    decreases h
  {
    hide Path, CeilLog2, FirstBelow, RootOf, Pow2, Under;
    StoredIffUnderIndex(t, x, h);
    if x in t.nodes {
      UnderNonEmpty(t, x, h);
      if h == 0 {
        LeafUnder(t, x);
        assert RootOf(t.hash, t.defaultValue, 0, [t.Get(x)]) == t.Get(x) by { RootOfLeaf(t.hash, t.defaultValue, t.Get(x)); }
      } else {
        UnderSplits(t, x, h);
        NodeIsRootOfLeaves(t, 2 * x, h - 1);
        NodeIsRootOfLeaves(t, 2 * x + 1, h - 1);
        InnerIsHash(t, x, h);
        RootOfSplits(t.hash, t.defaultValue, h, Under(t, x, h));
      }
    } else {
      UnderNonEmpty(t, x, h);
      RootOfNothing(t.hash, t.defaultValue, h);
    }
  }

  lemma UnderNonEmpty(t: Tree, x: nat, h: nat)
    requires t.Start() <= t.index && t.Start() <= FirstBelow(x, h)
    ensures Under(t, x, h) == [] <==> FirstBelow(x, h) >= t.index
  {
  }

  lemma RootOfLeaf(hash: HashFunc, default: int, leaf: int)
    ensures RootOf(hash, default, 0, [leaf]) == leaf
  {
  }

  lemma RootOfNothing(hash: HashFunc, default: int, h: nat)
    ensures RootOf(hash, default, h, []) == default
  {
  }

  lemma InnerIsHash(t: Tree, x: nat, h: nat)
    requires Hashed(t) && OnRow(t, x, h) && h > 0 && x in t.nodes
    ensures t.nodes[x] == t.hash(t.Get(2 * x), t.Get(2 * x + 1))
  {
    hide Pow2;
    Pow2Monotone(t.levels - h, t.levels - 1);
    Pow2Monotone(0, t.levels - 1 - h);
    assert HashedAt(t, x);
  }

  lemma RootOfSplits(hash: HashFunc, default: int, h: nat, s: seq<int>)
    requires h > 0 && s != []
    ensures var mid := Min(|s|, Pow2(h - 1));
            RootOf(hash, default, h, s) == hash(RootOf(hash, default, h - 1, s[..mid]), RootOf(hash, default, h - 1, s[mid..]))
  {
  }

  lemma LeafUnder(t: Tree, x: nat)
    requires t.Start() <= FirstBelow(x, 0) < t.index
    ensures Under(t, x, 0) == [t.Get(x)]
  {
  }

  // --- The root.

  /** What the root walk returns for a root value: a zero root reads as the default. */
  function ZeroAsDefault(root: int, default: int): int {
    if root == 0 then default else root
  }

  lemma {:induction false} SpineSkips(t: Tree, j: nat)
    requires Valid(t) && j <= t.levels - 1 - t.Height()
    ensures FirstOnSpine(t, 0) == FirstOnSpine(t, j)
  {
    hide Path, Climb, CeilLog2;
    if j > 0 {
      SpineSkips(t, j - 1);
      if Pow2(j - 1) in t.nodes {
        var _, h := InUseRow(t, Pow2(j - 1));
        RowUnique(Pow2(j - 1), t.levels - 1 - h, j - 1);
      }
    }
  }

  /** The top node in use, on the left spine, holds the root of all the leaves. */
  lemma TopNode(t: Tree)
    requires Valid(t) && Filled(t)
    ensures t.Height() <= t.levels - 1
    ensures t.Get(Pow2(t.levels - 1 - t.Height())) == RootFromScratch(t.hash, t.defaultValue, Leaves(t))
    ensures Pow2(t.levels - 1 - t.Height()) in t.nodes <==> t.index > t.Start()
  {
    hide Path, Climb, CeilLog2, FirstBelow, RootOf, Pow2;
    HeightInRow(t);
    var k := t.Height();
    var top := Pow2(t.levels - 1 - k);
    FirstBelowPow2(t.levels - 1 - k, k);
    CeilLog2Bounds(t.index - t.Start());
    Pow2Step(t.levels - k);
    assert OnRow(t, top, k);
    NodeIsRootOfLeaves(t, top, k);
    assert Under(t, top, k) == Leaves(t);
    StoredIffUnderIndex(t, top, k);
  }

  lemma FirstOnSpineIsRoot(t: Tree)
    requires Valid(t) && Filled(t) && NeverZero(t.hash)
    ensures FirstOnSpine(t, 0) == ZeroAsDefault(RootFromScratch(t.hash, t.defaultValue, Leaves(t)), t.defaultValue)
  {
    hide Path, Climb, CeilLog2, FirstBelow, RootOf, Pow2;
    TopNode(t);
    var j := t.levels - 1 - t.Height();
    SpineSkips(t, j);
    if t.Height() > 0 {
      Pow2Monotone(j + 1, t.levels - 1);
      Pow2Step(j + 1);
      assert HashedAt(t, Pow2(j));
      CeilLog2Least(t.index - t.Start(), 0);
    }
  }

  /** Counting is enough: the count reaches the number of slots exactly when none is missing. */
  lemma CompleteIffFilled(t: Tree)
    requires Valid(t)
    ensures t.Complete() <==> Filled(t)
  {
    hide Path, Climb, CeilLog2, Pow2;
    var slots := Range(t.Start(), t.index);
    StoredIsPositive(t);
    SubsetSize(LeafSlots(t), slots);
    if t.Complete() {
      forall x | t.Start() <= x < t.index ensures x in t.nodes { assert x in slots && slots == LeafSlots(t); }
    }
    if Filled(t) { assert LeafSlots(t) == slots; }
  }

  /** The slots in [a, b). */
  ghost function Range(a: nat, b: nat): (r: set<nat>)
    requires a <= b
    ensures |r| == b - a
    ensures forall x: nat :: x in r <==> a <= x < b
    decreases b - a
  {
    if a == b then {} else Range(a, b - 1) + {b - 1}
  }

  /** In every valid tree the root is available exactly when filled, and is then the recursive root of the leaves. */
  lemma RootHashIsRecursiveRoot(t: Tree)
    requires Valid(t) && NeverZero(t.hash)
    ensures RootHash(t).Ok? <==> Filled(t)
    ensures RootHash(t).Ok? ==>
      RootHash(t).value == ZeroAsDefault(RootFromScratch(t.hash, t.defaultValue, Leaves(t)), t.defaultValue)
  {
    CompleteIffFilled(t);
    if Filled(t) { FirstOnSpineIsRoot(t); }
  }

  // --- Runs of insertions and removals, in any order.

  datatype Op = InsertOp(value: int, slot: nat) | RemoveOp(slot: nat)

  function Apply(t: Tree, op: Op): Tree {
    match op
    case InsertOp(value, slot) => Insert(t, value, slot)
    case RemoveOp(slot) => Remove(t, slot)
  }

  function Run(t: Tree, ops: seq<Op>): Tree {
    if ops == [] then t else Apply(Run(t, ops[..|ops| - 1]), ops[|ops| - 1])
  }

  /** The last value written to each slot; a removal writes the default. */
  function LastWrites(ops: seq<Op>, default: int): map<nat, int> {
    if ops == [] then map[]
    else
      var w := LastWrites(ops[..|ops| - 1], default);
      match ops[|ops| - 1]
      case InsertOp(value, slot) => w[slot := value]
      case RemoveOp(slot) => w[slot := default]
  }

  /** One past the highest slot inserted. */
  function End(ops: seq<Op>, start: nat): nat {
    if ops == [] then start
    else
      var e := End(ops[..|ops| - 1], start);
      match ops[|ops| - 1]
      case InsertOp(_, slot) => if slot + 1 > e then slot + 1 else e
      case RemoveOp(_) => e
  }

  /** Slots lie on the leaf row, and only written slots are removed. */
  ghost predicate Allowed(ops: seq<Op>, start: nat, default: int) {
    ops == [] ||
    var rest, op := ops[..|ops| - 1], ops[|ops| - 1];
    && Allowed(rest, start, default)
    && start <= op.slot < 2 * start
    && (op.RemoveOp? ==> op.slot in LastWrites(rest, default))
  }

  lemma {:induction false} RunIsValid(hash: HashFunc, default: int, levels: nat, ops: seq<Op>)
    requires Allowed(ops, New(hash, default, levels).Start(), default)
    ensures var t0 := New(hash, default, levels);
            var t := Run(t0, ops);
            && Valid(t)
            && t == t0.(nodes := t.nodes, reverse := t.reverse, count := t.count, index := End(ops, t0.Start()))
            && LeafSlots(t) == LastWrites(ops, default).Keys
            && forall x :: x in LeafSlots(t) ==> t.nodes[x] == LastWrites(ops, default)[x]
    decreases |ops|
  {
    hide Climb, Path, Pow2, CeilLog2, Hashed, Climbed, OnlyInUse, Bounded;
    if ops == [] {
      NewIsValid(hash, default, levels);
    } else {
      var rest, op := ops[..|ops| - 1], ops[|ops| - 1];
      RunIsValid(hash, default, levels, rest);
      var t := Run(New(hash, default, levels), rest);
      if op.InsertOp? { InsertIsValid(t, op.value, op.slot); } else { RemovePresent(t, op.slot); }
    }
  }

  /** The slots in [start, end), each with its last write. */
  function WrittenLeaves(writes: map<nat, int>, start: nat, end: nat): seq<int>
    requires start <= end && forall x :: start <= x < end ==> x in writes
  {
    seq(end - start, i requires 0 <= i < end - start => writes[start + i])
  }

  lemma {:induction false} EndBounds(ops: seq<Op>, start: nat, default: int)
    requires Allowed(ops, start, default)
    ensures start <= End(ops, start)
    ensures forall x :: x in LastWrites(ops, default) ==> start <= x < End(ops, start)
    ensures End(ops, start) > start ==> End(ops, start) - 1 in LastWrites(ops, default)
    decreases |ops|
  {
    if ops != [] { EndBounds(ops[..|ops| - 1], start, default); }
  }

  /**
   After any run of insertions (gaps, late fills, overwrites) and removals of present leaves, the
   root is available exactly when every slot up to the highest one has been written, and it is the
   recursive root of the last value written to each slot.
   */
  lemma RootAfterAnyRun(hash: HashFunc, default: int, levels: nat, ops: seq<Op>)
    requires NeverZero(hash) && Allowed(ops, New(hash, default, levels).Start(), default)
    ensures var t0, writes := New(hash, default, levels), LastWrites(ops, default);
            var start, end, root := t0.Start(), End(ops, t0.Start()), RootHash(Run(t0, ops));
            && start <= end
            && (root.Ok? <==> forall x :: start <= x < end ==> x in writes)
            && (root.Ok? ==>
                root.value == ZeroAsDefault(RootFromScratch(hash, default, WrittenLeaves(writes, start, end)), default))
  {
    hide Climb, Path, Pow2, CeilLog2, Hashed, Climbed, OnlyInUse, FirstOnSpine, RootOf, Run, End, LastWrites, Allowed;
    var t0, writes := New(hash, default, levels), LastWrites(ops, default);
    var t := Run(t0, ops);
    RunIsValid(hash, default, levels, ops);
    EndBounds(ops, t0.Start(), default);
    RootHashIsRecursiveRoot(t);
    assert writes.Keys == LeafSlots(t);
    assert Filled(t) <==> forall x :: t0.Start() <= x < End(ops, t0.Start()) ==> x in writes by {
      forall x | t.Start() <= x < t.index ensures x in t.nodes <==> x in writes {
        assert x in t.nodes <==> x in LeafSlots(t);
      }
    }
    if Filled(t) {
      LeavesAreWrites(t, writes);
    }
  }

  lemma LeavesAreWrites(t: Tree, writes: map<nat, int>)
    requires Filled(t) && t.Start() <= t.index
    requires LeafSlots(t) == writes.Keys && forall x :: x in LeafSlots(t) ==> t.nodes[x] == writes[x]
    ensures forall x :: t.Start() <= x < t.index ==> x in writes
    ensures Leaves(t) == WrittenLeaves(writes, t.Start(), t.index)
  {
    hide Pow2;
    forall x | t.Start() <= x < t.index ensures x in writes && t.Get(x) == writes[x] {
      assert x in t.nodes;
      assert x in LeafSlots(t);
    }
  }

  /** Only the last write to each slot matters: the order of a run never shows in the root. */
  lemma OrderIsIrrelevant(hash: HashFunc, default: int, levels: nat, ops: seq<Op>, ops': seq<Op>)
    requires NeverZero(hash)
    requires Allowed(ops, New(hash, default, levels).Start(), default)
    requires Allowed(ops', New(hash, default, levels).Start(), default)
    requires LastWrites(ops, default) == LastWrites(ops', default)
    ensures RootHash(Run(New(hash, default, levels), ops)) == RootHash(Run(New(hash, default, levels), ops'))
  {
    hide Climb, Path, Pow2, CeilLog2, FirstOnSpine, RootOf, Run, End, LastWrites, Allowed;
    var start := New(hash, default, levels).Start();
    EndBounds(ops, start, default);
    EndBounds(ops', start, default);
    assert End(ops, start) == End(ops', start);
    RootAfterAnyRun(hash, default, levels, ops);
    RootAfterAnyRun(hash, default, levels, ops');
  }

  // --- Where the code falls short of the plain statement.

  /** Removing an absent leaf and filling it later leaves a tree with no gap and no root. */
  lemma RemoveAbsentLosesRoot(hash: HashFunc)
    ensures var t := Insert(Remove(Insert(New(hash, 0, 2), 7, 3), 2), 5, 2);
            Filled(t) && RootHash(t).Err?
  {
    hide Climb, Path, Pow2;
    var t0 := New(hash, 0, 2);
    TwoLevels();
    ClimbFrame(Placed(t0, 7, 3), 3, 1);
    var t1 := Insert(t0, 7, 3);
    assert t1.count == 1 && t1.index == 4 && 3 in t1.nodes;
    ClimbFrame(t1.(nodes := t1.nodes[2 := 0], reverse := t1.reverse[0 := 2]), 2, t1.Height());
    var t2 := Remove(t1, 2);
    assert t2.count == 1 && t2.index == 4 && 3 in t2.nodes && 2 in t2.nodes;
    ClimbFrame(Placed(t2, 5, 2), 2, t2.Height());
  }

  lemma TwoLevels()
    ensures Pow2(1) == 2 && CeilLog2(2) == 1
  {
  }

  /** The smallest such tree: its only leaf is lost and the root still answers. */
  lemma SlotPastRowOverwritesLeaf(hash: HashFunc)
    ensures var t := Insert(Insert(New(hash, 0, 1), 7, 1), 9, 2);
            t.nodes[1] == hash(9, 0) && RootHash(t).Ok?
  {
    assert Pow2(0) == 1 && CeilLog2(1) == 0 && CeilLog2(2) == 1;
  }
}
