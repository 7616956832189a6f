/**
 The serialized tree: every number is decimal text, so every number may fail to parse. The lite form
 drops the reverse index, which reading then rebuilds from the leaves.
 */
module MerkleJson {
  import opened Wrappers
  import opened Bits
  import opened MerkleModel
  import opened MerkleRoot
  import opened MerklePaths

  /** Decimal text: what some number prints as, or text that no number prints as. */
  datatype Decimal<+N> = Printed(n: N) | Malformed

  datatype MerkleTreeJSON = MerkleTreeJSON(
    tree: map<nat, Decimal<int>>,
    reverseTree: Option<map<int, Decimal<nat>>>,
    count: Decimal<int>,
    index: Decimal<nat>)

  function Print<K, N>(m: map<K, N>): map<K, Decimal<N>> {
    map k | k in m :: Printed(m[k])
  }

  function ParseMap<K, N>(m: map<K, Decimal<N>>): Option<map<K, N>> {
    if forall k | k in m :: m[k].Printed? then Some(map k | k in m :: m[k].n) else None
  }

  lemma ParsePrinted<K, N>(m: map<K, N>)
    ensures ParseMap(Print(m)) == Some(m)
  {
    assert (map k | k in Print(m) :: Print(m)[k].n) == m;
  }

  function ToJSON(t: Tree): MerkleTreeJSON {
    MerkleTreeJSON(Print(t.nodes), Some(Print(t.reverse)), Printed(t.count), Printed(t.index))
  }

  function ToJSONLite(t: Tree): MerkleTreeJSON {
    ToJSON(t).(reverseTree := None)
  }

  /** The reverse index of the first n leaf slots; a later slot replaces an earlier one. */
  function ReverseOf(t: Tree, n: nat): map<int, nat> {
    if n == 0 then map[]
    else
      var x := t.Start() + n - 1;
      if x in t.nodes then ReverseOf(t, n - 1)[t.nodes[x] := x] else ReverseOf(t, n - 1)
  }

  function BuildReverseTree(t: Tree): map<int, nat> {
    ReverseOf(t, if t.count < 0 then 0 else t.count)
  }

  function FromJSON(j: MerkleTreeJSON, hash: HashFunc, defaultValue: int): Result<Tree, string> {
    var nodes := ParseMap(j.tree);
    var reverse := if j.reverseTree.Some? then ParseMap(j.reverseTree.value) else Some(map[]);
    if nodes.None? then Err("parse tree")
    else if reverse.None? then Err("parse reverseTree")
    else if j.count.Malformed? then Err("invalid count")
    else if j.index.Malformed? then Err("invalid index")
    else
      var t := Tree(hash, MERKLE_LEVELS, defaultValue, nodes.value, reverse.value, j.count.n, j.index.n);
      Ok(if j.reverseTree.Some? then t else t.(reverse := BuildReverseTree(t)))
  }

  /** Reading back the full form gives the same tree exactly when it has the standard number of levels. */
  lemma FullRoundTripIff(t: Tree)
    ensures FromJSON(ToJSON(t), t.hash, t.defaultValue) == Ok(t) <==> t.levels == MERKLE_LEVELS
  {
    ParsePrinted(t.nodes);
    ParsePrinted(t.reverse);
  }

  /** The reverse index names, for every value of the first n slots and no other, the last slot holding it. */
  ghost predicate LatestIndex(t: Tree, reverse: map<int, nat>, n: nat) {
    && (forall v :: v in reverse ==>
          && t.Start() <= reverse[v] < t.Start() + n
          && reverse[v] in t.nodes && t.nodes[reverse[v]] == v)
    && forall x :: t.Start() <= x < t.Start() + n && x in t.nodes ==> t.nodes[x] in reverse && x <= reverse[t.nodes[x]]
  }

  lemma {:induction false} ReverseOfIsLatest(t: Tree, n: nat)
    ensures LatestIndex(t, ReverseOf(t, n), n)
  {
    hide Pow2;
    if n > 0 { ReverseOfIsLatest(t, n - 1); }
  }

  lemma LatestIsUnique(t: Tree, a: map<int, nat>, b: map<int, nat>, n: nat)
    requires LatestIndex(t, a, n) && LatestIndex(t, b, n)
    ensures a == b
  {
    hide Pow2;
    assert a.Keys == b.Keys by {
      forall v | v in a ensures v in b { assert t.nodes[a[v]] == v; }
      forall v | v in b ensures v in a { assert t.nodes[b[v]] == v; }
    }
    forall v | v in a ensures a[v] == b[v] { assert t.nodes[a[v]] == v == t.nodes[b[v]]; }
  }

  /** Reading back the lite form of a complete tree gives the same tree exactly when its index names last slots. */
  lemma LiteRoundTripIff(t: Tree)
    requires Valid(t) && t.Complete() && t.levels == MERKLE_LEVELS
    ensures FromJSON(ToJSONLite(t), t.hash, t.defaultValue) == Ok(t) <==> LatestIndex(t, t.reverse, t.index - t.Start())
  {
    hide Pow2, ReverseOf, LatestIndex, Valid;
    ParsePrinted(t.nodes);
    assert t.count >= 0 by { CompleteCount(t); }
    var n := t.index - t.Start();
    var t' := FromJSON(ToJSONLite(t), t.hash, t.defaultValue).value;
    assert t' == t.(reverse := BuildReverseTree(t.(reverse := map[])));
    ReverseOfIsLatest(t.(reverse := map[]), n);
    LatestIgnoresReverse(t, t'.reverse, n);
    if LatestIndex(t, t.reverse, n) {
      LatestIsUnique(t, t.reverse, t'.reverse, n);
    }
  }

  lemma CompleteCount(t: Tree)
    requires Valid(t)
    ensures t.count >= 0
  {
  }

  lemma LatestIgnoresReverse(t: Tree, reverse: map<int, nat>, n: nat)
    ensures LatestIndex(t, reverse, n) <==> LatestIndex(t.(reverse := map[]), reverse, n)
  {
  }

  // --- Trees built without overwrites from distinct leaves.

  ghost predicate Fresh(leaves: seq<(int, nat)>, start: nat) {
    && (forall i :: 0 <= i < |leaves| ==> start <= leaves[i].1 < 2 * start)
    && (forall i, j :: 0 <= i < j < |leaves| ==> leaves[i].0 != leaves[j].0 && leaves[i].1 != leaves[j].1)
  }

  function InsertAll(t: Tree, leaves: seq<(int, nat)>): Tree {
    if leaves == [] then t
    else
      var last := leaves[|leaves| - 1];
      Insert(InsertAll(t, leaves[..|leaves| - 1]), last.0, last.1)
  }

  lemma {:induction false} FreshTreeIsIndexed(hash: HashFunc, defaultValue: int, levels: nat, leaves: seq<(int, nat)>)
    requires Fresh(leaves, New(hash, defaultValue, levels).Start())
    ensures var t0 := New(hash, defaultValue, levels);
            var t := InsertAll(t0, leaves);
            && Valid(t) && Indexed(t) && t.levels == t0.levels && t.hash == hash && t.defaultValue == defaultValue
            && (forall x :: x in LeafSlots(t) ==> exists i :: 0 <= i < |leaves| && leaves[i] == (t.nodes[x], x))
            && (forall v :: v in t.reverse ==> exists i :: 0 <= i < |leaves| && leaves[i] == (v, t.reverse[v]))
    decreases |leaves|
  {
    hide Climb, Pow2, CeilLog2, Valid, Indexed;
    var t0 := New(hash, defaultValue, levels);
    if leaves == [] {
      NewIsValid(hash, defaultValue, levels);
      NewIsIndexed(hash, defaultValue, levels);
    } else {
      var rest, last := leaves[..|leaves| - 1], leaves[|leaves| - 1];
      FreshTreeIsIndexed(hash, defaultValue, levels, rest);
      var t := InsertAll(t0, rest);
      InsertIsValid(t, last.0, last.1);
      assert last.1 in t.nodes <==> last.1 in LeafSlots(t);
      InsertKeepsIndex(t, last.0, last.1);
      assert leaves[|leaves| - 1] == (last.0, last.1);
    }
  }

  lemma NewIsIndexed(hash: HashFunc, defaultValue: int, levels: nat)
    ensures Indexed(New(hash, defaultValue, levels))
  {
  }

  lemma IndexedIsLatest(t: Tree)
    requires Valid(t) && Indexed(t)
    ensures LatestIndex(t, t.reverse, t.index - t.Start())
  {
    hide Climb, Pow2, CeilLog2;
    StoredIsPositive(t);
    forall v | v in t.reverse
      ensures t.Start() <= t.reverse[v] < t.index && t.reverse[v] in t.nodes && t.nodes[t.reverse[v]] == v
    {
      assert StoredAt(t, v);
    }
    forall x | t.Start() <= x < t.index && x in t.nodes ensures t.nodes[x] in t.reverse && x <= t.reverse[t.nodes[x]] {
      assert x in LeafSlots(t);
    }
  }

  /** A complete standard tree built from distinct leaves at distinct slots survives both JSON forms. */
  lemma FreshTreeRoundTrips(hash: HashFunc, defaultValue: int, leaves: seq<(int, nat)>)
    requires Fresh(leaves, New(hash, defaultValue, MERKLE_LEVELS).Start())
    requires InsertAll(New(hash, defaultValue, MERKLE_LEVELS), leaves).Complete()
    ensures var t := InsertAll(New(hash, defaultValue, MERKLE_LEVELS), leaves);
            FromJSON(ToJSON(t), hash, defaultValue) == FromJSON(ToJSONLite(t), hash, defaultValue) == Ok(t)
  {
    hide Pow2, Valid, Indexed, Insert, LatestIndex, FromJSON, ToJSON;
    var t := InsertAll(New(hash, defaultValue, MERKLE_LEVELS), leaves);
    FreshTreeIsIndexed(hash, defaultValue, MERKLE_LEVELS, leaves);
    FullRoundTripIff(t);
    IndexedIsLatest(t);
    LiteRoundTripIff(t);
  }
}
