/** The reverse index of the tree a synchronised service keeps, from which its authentication paths start. */
module ServiceTree {
  import opened Wrappers
  import opened Bits
  import opened MerkleModel
  import opened MerklePaths
  import opened SnapshotModel
  import opened Replay

  /** While no leaf is replaced and no commitment repeats, the tree's reverse index is the exact inverse of its leaves. */
  lemma {:induction false} PassIsIndexed(flavour: Flavour, hash: HashFunc, tagged: Tagged)
    requires NonConflicting(tagged, InitialState(hash).tree.Start())
    ensures Indexed(AcceptAll(flavour, InitialState(hash), tagged).tree)
    decreases |tagged|
  {
    hide Accept, Pow2, Holds, NonConflicting, Indexed, Insert;
    if tagged == [] {
      NewTreeIsIndexed(hash);
    } else {
      var rest, last := tagged[..|tagged| - 1], tagged[|tagged| - 1];
      FrontNonConflicting(tagged, InitialState(hash).tree.Start());
      PassIsIndexed(flavour, hash, rest);
      PassHolds(flavour, hash, rest);
      var s := AcceptAll(flavour, InitialState(hash), rest);
      SameStart(s.tree, InitialState(hash).tree);
      assert tagged == rest + [last];
      AcceptIndexes(flavour, s, rest, last.0, last.1);
    }
  }

  lemma NewTreeIsIndexed(hash: HashFunc)
    ensures Indexed(InitialState(hash).tree)
  {
    hide Pow2;
  }

  lemma AcceptIndexes(flavour: Flavour, s: Commitments, tagged: Tagged, event: CommitmentEvent, isBlocked: bool)
    requires Holds(s, tagged) && NonConflicting(tagged + [(event, isBlocked)], s.tree.Start()) && Indexed(s.tree)
    ensures Indexed(Accept(flavour, s, event, isBlocked).0.tree)
  {
    hide Insert, Valid, Pow2, OutputsAreRange, DropFirst;
    var slot, all := Abs(event.index), tagged + [(event, isBlocked)];
    assert all[|tagged|] == (event, isBlocked);
    assert forall i :: 0 <= i < |tagged| ==> all[i] == tagged[i];
    assert slot !in LeafSlots(s.tree);
    StoredLeaf(s.tree, slot);
    forall x | x in LeafSlots(s.tree) ensures s.tree.nodes[x] != event.commitment {
      var i :| 0 <= i < |tagged| && Abs(tagged[i].0.index) == x;
      assert LeafAt(s.tree, x) == Some(tagged[i].0.commitment);
    }
    assert event.commitment in s.tree.reverse ==> StoredAt(s.tree, event.commitment);
    InsertKeepsIndex(s.tree, event.commitment, slot);
  }

  /** So every commitment the synchronised service contains is really stored, and its path folds to the root. */
  lemma ServiceTreeIsIndexed(flavour: Flavour, hash: HashFunc, chain: seq<LogEvent>, b: nat)
    requires GoodChain(chain, hash)
    ensures Indexed(StateAt(flavour, hash, chain, b).tree)
  {
    hide AcceptAll, Tag, Page, Holds, Indexed;
    PrefixNonConflicting(chain, hash, b);
    PassIsIndexed(flavour, hash, Tag(Page(chain, 0, b), BlockedTxs(chain)));
  }
}
