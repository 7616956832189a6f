/** The Merkle tree as the client keeps it: one object whose maps, count and index are updated in place. */
module MerkleTree {
  import opened Wrappers
  import opened Bits
  import opened MerkleModel
  import opened MerkleRoot
  import opened MerklePaths
  import opened MerkleJson

  lemma ClimbStep(t: Tree, cur: nat, k: nat)
    requires k > 0
    ensures Climb(t, cur, k) == Climb(Rehash(t, cur / 2), cur / 2, k - 1)
  {
  }

  lemma ClimbDone(t: Tree, cur: nat)
    ensures Climb(t, cur, 0) == t
  {
  }

  /** What is read from the last n of the first count slots, latest first. */
  function LatestLeaves(t: Tree, n: nat): seq<int> {
    if n == 0 || t.count < n then []
    else
      var x := t.Start() + (t.count - n);
      LatestLeaves(t, n - 1) + if x in t.nodes && t.nodes[x] != 0 then [t.nodes[x]] else []
  }

  /** In a complete tree of non-zero leaves these are the newest n leaves. */
  lemma {:induction false} LatestOfComplete(t: Tree, n: nat)
    requires Valid(t) && t.Complete() && n <= t.count && forall x :: x in LeafSlots(t) ==> t.nodes[x] != 0
    ensures |LatestLeaves(t, n)| == n
    ensures forall i :: 0 <= i < n ==> t.index - 1 - i in t.nodes && LatestLeaves(t, n)[i] == t.nodes[t.index - 1 - i]
    decreases n
  {
    hide Pow2, Climbed, Hashed, OnlyInUse;
    CompleteIffFilled(t);
    if n > 0 {
      LatestOfComplete(t, n - 1);
      assert t.index - n in LeafSlots(t);
    }
  }

  class SparseTree {
    const hashFn: HashFunc
    const levels: Levels
    const defaultValue: int
    var tree: map<nat, int>
    var reverseTree: map<int, nat>
    var count: int
    var index: nat

    /** The tree as a value. */
    ghost function State(): Tree
      reads this
    {
      Tree(hashFn, levels, defaultValue, tree, reverseTree, count, index)
    }

    constructor (hash: HashFunc, defaultValue: int, levels: nat)
      ensures State() == New(hash, defaultValue, levels)
    {
      var levels' := if levels == 0 then MERKLE_LEVELS else levels;
      hashFn := hash;
      this.levels := levels';
      this.defaultValue := defaultValue;
      tree, reverseTree := map[], map[];
      count := 0;
      index := Pow2(levels' - 1);
    }

    constructor FromState(t: Tree)
      ensures State() == t
    {
      hashFn, levels, defaultValue := t.hash, t.levels, t.defaultValue;
      tree, reverseTree, count, index := t.nodes, t.reverse, t.count, t.index;
    }

    function StartIndex(): nat {
      Pow2(levels - 1)
    }

    function GetOrDefault(x: nat): int
      reads this
    {
      if x in tree then tree[x] else defaultValue
    }

    method Insert(value: int, nodeIndex: nat)
      requires nodeIndex >= StartIndex()
      modifies this
      ensures State() == MerkleModel.Insert(old(State()), value, nodeIndex)
    {
      if nodeIndex !in tree {
        count := count + 1;
      }
      var next := nodeIndex + 1;
      if next > index {
        index := next;
      }
      ForceInsert(value, nodeIndex);
    }

    method Remove(nodeIndex: nat)
      requires nodeIndex >= StartIndex()
      modifies this
      ensures State() == MerkleModel.Remove(old(State()), nodeIndex)
    {
      ForceInsert(defaultValue, nodeIndex);
    }

    method ForceInsert(value: int, nodeIndex: nat)
      requires nodeIndex >= StartIndex()
      modifies this
      ensures State() == MerkleModel.ForceInsert(old(State()), value, nodeIndex)
    {
      hide Pow2, CeilLog2, Climb;
      tree := tree[nodeIndex := value];
      reverseTree := reverseTree[value := nodeIndex];

      var fullCount := index - StartIndex();
      var twoPower := CeilLog2(fullCount);
      ghost var written := State();

      var cur := nodeIndex;
      for i := 0 to twoPower
        invariant Climb(State(), cur, twoPower - i) == Climb(written, nodeIndex, twoPower)
      {
        ghost var before, from := State(), cur;
        cur := cur / 2;
        var left := 2 * cur;
        var leftVal := GetOrDefault(left);
        var rightVal := GetOrDefault(left + 1);
        tree := tree[cur := hashFn(leftVal, rightVal)];
        assert State() == Rehash(before, cur);
        ClimbStep(before, from, twoPower - i);
      }
      ClimbDone(State(), cur);
    }

    method GetValue(nodeIndex: nat) returns (value: Option<int>)
      ensures value == if nodeIndex in State().nodes then Some(State().nodes[nodeIndex]) else None
    {
      value := if nodeIndex in tree then Some(tree[nodeIndex]) else None;
    }

    method Contains(value: int) returns (found: bool)
      ensures found <==> value in State().reverse
    {
      found := value in reverseTree;
    }

    /** The latest leaves first, skipping absent and zero ones. */
    method LastLeaves(limit: nat) returns (out: seq<int>)
      ensures out == LatestLeaves(State(), if limit <= count then limit else if count < 0 then 0 else count)
    {
      hide Pow2;
      out := [];
      var i := 0;
      while i < limit && i < count
        invariant 0 <= i <= limit && (i <= count || i == 0)
        invariant out == LatestLeaves(State(), i)
      {
        var x := StartIndex() + (count - 1 - i);
        if x in tree && tree[x] != 0 {
          out := out + [tree[x]];
        }
        i := i + 1;
      }
    }

    method GetRootHash() returns (root: Result<int, string>)
      ensures root == RootHash(State())
    {
      hide Pow2;
      if count != index - StartIndex() {
        return Err("merkle tree is incomplete");
      }
      // i runs over the left spine, 1, 2, 4, ... below 2^levels
      var j := 0;
      while j < levels
        invariant 0 <= j <= levels
        invariant FirstOnSpine(State(), 0) == FirstOnSpine(State(), j)
      {
        var i := Pow2(j);
        if i in tree && tree[i] != 0 {
          return Ok(tree[i]);
        }
        j := j + 1;
      }
      root := Ok(defaultValue);
    }

    method GetSiblingHashesForVerification(item: int) returns (hashes: Result<seq<int>, string>)
      ensures hashes == SiblingHashes(State(), item)
    {
      hide Pow2;
      if count != index - StartIndex() {
        return Err("merkle tree is incomplete");
      }
      if item !in reverseTree {
        return Ok(ZeroSlice());
      }
      var cur := reverseTree[item];
      var out := [];
      while cur != 0
        invariant out + Siblings(State(), cur) == Siblings(State(), reverseTree[item])
      {
        var sib := SiblingIndex(cur);
        out := out + [GetOrDefault(sib)];
        cur := cur / 2;
      }
      assert out + Siblings(State(), 0) == out;
      hashes := Ok(SliceFirst(out));
    }

    method GetSiblingSides(item: int) returns (sides: Result<seq<int>, string>)
      ensures sides == SiblingSides(State(), item)
    {
      hide Pow2;
      if count != index - StartIndex() {
        return Err("merkle tree is incomplete");
      }
      if item !in reverseTree {
        return Ok(ZeroSlice());
      }
      var cur := reverseTree[item];
      var out := [];
      while cur != 0
        invariant out + Sides(cur) == Sides(reverseTree[item])
      {
        out := out + [if cur % 2 == 0 then 0 else 1];
        cur := cur / 2;
      }
      assert out + Sides(0) == out;
      sides := Ok(SliceFirst(out));
    }

    /** A separate tree in the same state: changing one does not change the other. */
    method Clone() returns (copy: SparseTree)
      ensures fresh(copy) && copy.State() == State()
    {
      copy := new SparseTree.FromState(Tree(hashFn, levels, defaultValue, tree, reverseTree, count, index));
    }

    /** Rebuilds the reverse index by one pass over the first count slots. */
    method RebuildReverseTree()
      modifies this
      ensures State() == old(State()).(reverse := BuildReverseTree(old(State())))
    {
      hide Pow2;
      var rt := map[];
      var n := 0;
      while n < count
        invariant 0 <= n && (n <= count || n == 0)
        invariant rt == ReverseOf(State(), n)
      {
        var x := StartIndex() + n;
        if x in tree {
          rt := rt[tree[x] := x];
        }
        n := n + 1;
      }
      reverseTree := rt;
      assert ReverseOf(old(State()), n) == BuildReverseTree(old(State()));
    }
  }
}
