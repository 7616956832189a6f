/** The watermark's compare-and-swap loops, one atomic access at a time, under every interleaving of callers. */
module WatermarkThreads {

  datatype Call = AdvanceCall(v: nat) | SyncCall(v: nat)

  datatype Pc = Begin | Storing | Loading | Loaded(cur: nat) | Finished

  datatype Thread = Thread(call: Call, pc: Pc)

  datatype Shared = Shared(value: nat, synced: bool, threads: seq<Thread>)

  function At(s: Shared, i: nat, pc: Pc): Shared
    requires i < |s.threads|
  {
    s.(threads := s.threads[i := s.threads[i].(pc := pc)])
  }

  /** Whether the value read already satisfies the call. */
  predicate Satisfied(call: Call, cur: nat) {
    match call
    case AdvanceCall(v) => v <= cur
    case SyncCall(v) => v >= cur
  }

  /** One atomic access by thread i. */
  function Access(s: Shared, i: nat): Shared
    requires i < |s.threads|
  {
    var t := s.threads[i];
    match t.pc
    case Begin =>
      if t.call.SyncCall? && !s.synced then At(s.(synced := true), i, Storing) else At(s, i, Loading)
    case Storing => At(s.(value := t.call.v), i, Finished)
    case Loading => At(s, i, Loaded(s.value))
    case Loaded(cur) =>
      if Satisfied(t.call, cur) then At(s, i, Finished)
      else if s.value == cur then At(s.(value := t.call.v), i, Finished)
      else At(s, i, Loading)
    case Finished => s
  }

  function Interleave(s: Shared, schedule: seq<nat>): Shared
    requires forall k :: 0 <= k < |schedule| ==> schedule[k] < |s.threads|
    ensures |Interleave(s, schedule).threads| == |s.threads|
    decreases |schedule|
  {
    if schedule == [] then s
    else Access(Interleave(s, schedule[..|schedule| - 1]), schedule[|schedule| - 1])
  }

  predicate AllFinished(s: Shared) {
    forall i :: 0 <= i < |s.threads| ==> s.threads[i].pc == Finished
  }

  ghost predicate Starting(s: Shared, advance: bool) {
    forall i :: 0 <= i < |s.threads| ==> s.threads[i].pc == Begin && s.threads[i].call.AdvanceCall? == advance
  }

  /** The value is the start value or some caller's, finished calls are satisfied, and it only moves one way. */
  ghost predicate Settling(s: Shared, s0: Shared, advance: bool) {
    && |s.threads| == |s0.threads|
    && (forall i :: 0 <= i < |s.threads| ==> s.threads[i].call == s0.threads[i].call && s.threads[i].pc != Storing)
    && (s.value == s0.value || exists i :: 0 <= i < |s.threads| && s.threads[i].call.v == s.value)
    && (if advance then s0.value <= s.value else s.synced && s.value <= s0.value)
    && (forall i :: 0 <= i < |s.threads| && s.threads[i].pc == Finished ==> Satisfied(s.threads[i].call, s.value))
    && (forall i :: 0 <= i < |s.threads| && s.threads[i].pc.Loaded? ==>
          if advance then s.threads[i].pc.cur <= s.value else s.value <= s.threads[i].pc.cur)
  }

  lemma {:induction false} EverySettles(s0: Shared, schedule: seq<nat>, advance: bool)
    requires Starting(s0, advance) && (advance || s0.synced)
    requires forall k :: 0 <= k < |schedule| ==> schedule[k] < |s0.threads|
    ensures Settling(Interleave(s0, schedule), s0, advance)
    decreases |schedule|
  {
    if schedule != [] {
      var rest, i := schedule[..|schedule| - 1], schedule[|schedule| - 1];
      EverySettles(s0, rest, advance);
      AccessSettles(Interleave(s0, rest), s0, i, advance);
    }
  }

  lemma AccessSettles(s: Shared, s0: Shared, i: nat, advance: bool)
    requires Starting(s0, advance) && Settling(s, s0, advance) && i < |s.threads|
    ensures Settling(Access(s, i), s0, advance)
  {
    var s' := Access(s, i);
    assert s0.threads[i].call.AdvanceCall? == advance;
    if s'.value != s.value {
      assert s'.threads[i].call.v == s'.value;
    } else if s'.value != s0.value {
      var j :| 0 <= j < |s.threads| && s.threads[j].call.v == s.value;
      assert s'.threads[j].call.v == s'.value;
    }
    forall j | 0 <= j < |s'.threads| && s'.threads[j].pc == Finished ensures Satisfied(s'.threads[j].call, s'.value) {
      assert s0.threads[j].call.AdvanceCall? == advance;
      assert s.threads[j].call == s0.threads[j].call;
    }
  }

  /** Concurrent advances, once all have returned, leave the maximum of the old value and every argument. */
  lemma AdvancesLeaveMaximum(s0: Shared, schedule: seq<nat>)
    requires Starting(s0, true)
    requires forall k :: 0 <= k < |schedule| ==> schedule[k] < |s0.threads|
    requires AllFinished(Interleave(s0, schedule))
    ensures var value := Interleave(s0, schedule).value;
            && s0.value <= value && (forall i :: 0 <= i < |s0.threads| ==> s0.threads[i].call.v <= value)
            && (value == s0.value || exists i :: 0 <= i < |s0.threads| && s0.threads[i].call.v == value)
  {
    EverySettles(s0, schedule, true);
    var s := Interleave(s0, schedule);
    forall i | 0 <= i < |s0.threads| ensures s0.threads[i].call.v <= s.value {
      assert s.threads[i].pc == Finished && s.threads[i].call == s0.threads[i].call;
    }
    if s.value != s0.value {
      var i :| 0 <= i < |s.threads| && s.threads[i].call.v == s.value;
      assert s0.threads[i].call.v == s.value;
    }
  }

  /** Once the first sync has been stored, later syncs may overlap freely: the minimum remains. */
  lemma LaterSyncsLeaveMinimum(s0: Shared, schedule: seq<nat>)
    requires Starting(s0, false) && s0.synced
    requires forall k :: 0 <= k < |schedule| ==> schedule[k] < |s0.threads|
    requires AllFinished(Interleave(s0, schedule))
    ensures var value := Interleave(s0, schedule).value;
            && value <= s0.value && (forall i :: 0 <= i < |s0.threads| ==> value <= s0.threads[i].call.v)
            && (value == s0.value || exists i :: 0 <= i < |s0.threads| && s0.threads[i].call.v == value)
  {
    EverySettles(s0, schedule, false);
    var s := Interleave(s0, schedule);
    forall i | 0 <= i < |s0.threads| ensures s.value <= s0.threads[i].call.v {
      assert s.threads[i].pc == Finished && s.threads[i].call == s0.threads[i].call;
    }
    if s.value != s0.value {
      var i :| 0 <= i < |s.threads| && s.threads[i].call.v == s.value;
      assert s0.threads[i].call.v == s.value;
    }
  }

  lemma OneMore(s: Shared, schedule: seq<nat>, i: nat)
    requires (forall k :: 0 <= k < |schedule| ==> schedule[k] < |s.threads|) && i < |s.threads|
    ensures Interleave(s, schedule + [i]) == Access(Interleave(s, schedule), i)
  {
    assert (schedule + [i])[..|schedule + [i]| - 1] == schedule;
  }

  // --- The first sync.

  ghost predicate Finishes(s0: Shared, schedule: seq<nat>) {
    (forall k :: 0 <= k < |schedule| ==> schedule[k] < |s0.threads|) && AllFinished(Interleave(s0, schedule))
  }

  /** The value is the least argument. */
  ghost predicate IsMinimum(s0: Shared, value: nat) {
    && (forall i :: 0 <= i < |s0.threads| ==> value <= s0.threads[i].call.v)
    && exists i :: 0 <= i < |s0.threads| && s0.threads[i].call.v == value
  }

  ghost predicate SameArguments(s0: Shared) {
    forall i, j :: 0 <= i < |s0.threads| && 0 <= j < |s0.threads| ==> s0.threads[i].call.v == s0.threads[j].call.v
  }

  /** Every call syncs to v, and once someone claimed the first sync, v is stored or about to be. */
  ghost predicate Agreed(s: Shared, v: nat) {
    && (forall i :: 0 <= i < |s.threads| ==> s.threads[i].call == SyncCall(v))
    && (!s.synced ==> forall i :: 0 <= i < |s.threads| ==> s.threads[i].pc == Begin)
    && (s.synced ==> s.value == v || exists i :: 0 <= i < |s.threads| && s.threads[i].pc == Storing)
  }

  lemma {:induction false} EqualSyncsAgree(s0: Shared, schedule: seq<nat>, v: nat)
    requires Agreed(s0, v) && forall k :: 0 <= k < |schedule| ==> schedule[k] < |s0.threads|
    ensures Agreed(Interleave(s0, schedule), v)
    decreases |schedule|
  {
    if schedule != [] {
      var rest, i := schedule[..|schedule| - 1], schedule[|schedule| - 1];
      EqualSyncsAgree(s0, rest, v);
      AccessAgrees(Interleave(s0, rest), i, v);
    }
  }

  lemma AccessAgrees(s: Shared, i: nat, v: nat)
    requires Agreed(s, v) && i < |s.threads|
    ensures Agreed(Access(s, i), v)
  {
    var s' := Access(s, i);
    if s.threads[i].pc == Begin && !s.synced { assert s'.threads[i].pc == Storing; }
    if s.synced && s.value != v && s.threads[i].pc != Storing {
      var j :| 0 <= j < |s.threads| && s.threads[j].pc == Storing;
      assert s'.threads[j].pc == Storing;
    }
  }

  /** Thread i has claimed the first sync and not yet stored; of the others the first k have returned. */
  ghost predicate Claimed(s: Shared, s0: Shared, i: nat, k: nat) {
    && |s.threads| == |s0.threads| && i < |s.threads| && s.synced
    && s.threads[i].pc == Storing
    && (forall j :: 0 <= j < |s.threads| ==> s.threads[j].call == s0.threads[j].call)
    && (forall j :: 0 <= j < |s.threads| && j != i ==> s.threads[j].pc == if j < k then Finished else Begin)
  }

  /** The others, one after the other, three accesses each. */
  function Others(i: nat, k: nat): seq<nat> {
    if k == 0 then [] else Others(i, k - 1) + if k - 1 == i then [] else [k - 1, k - 1, k - 1]
  }

  lemma {:induction false} OthersReturn(s0: Shared, i: nat, k: nat)
    requires Starting(s0, false) && !s0.synced && i < |s0.threads| && k <= |s0.threads|
    ensures forall x :: 0 <= x < |[i] + Others(i, k)| ==> ([i] + Others(i, k))[x] < |s0.threads|
    ensures Claimed(Interleave(s0, [i] + Others(i, k)), s0, i, k)
    decreases k
  {
    hide Interleave;
    if k == 0 {
      NoAccess(s0);
      OneMore(s0, [], i);
      assert [] + [i] == [i] == [i] + Others(i, 0);
    } else {
      OthersReturn(s0, i, k - 1);
      var j, before := k - 1, [i] + Others(i, k - 1);
      var s := Interleave(s0, before);
      if j == i {
        assert [i] + Others(i, k) == before;
      } else {
        assert s.threads[j].pc == Begin && s.threads[j].call == s0.threads[j].call && s0.threads[j].call.SyncCall?;
        OneMore(s0, before, j);
        OneMore(s0, before + [j], j);
        OneMore(s0, before + [j] + [j], j);
        assert [i] + Others(i, k) == before + [j] + [j] + [j];
        Returns(s, j);
      }
    }
  }

  /** A sync that runs alone after the claim returns within three accesses and touches no other thread. */
  lemma Returns(s: Shared, j: nat)
    requires j < |s.threads| && s.synced && s.threads[j].pc == Begin && s.threads[j].call.SyncCall?
    ensures var s3 := Access(Access(Access(s, j), j), j);
            s3.synced && s3.threads == s.threads[j := s.threads[j].(pc := Finished)]
  {
    var s1 := Access(s, j);
    assert s1.threads[j].pc == Loading;
    var s2 := Access(s1, j);
    assert s2.threads[j].pc == Loaded(s.value) && s2.value == s.value;
    var s3 := Access(s2, j);
    assert s3.threads[j].pc == Finished;
    assert s3.threads == s.threads[j := s.threads[j].(pc := Finished)];
  }

  /**
   Claiming and storing the first sync are two accesses: whoever claims it and stores last wins. So concurrent first
   syncs are sure to leave the minimum exactly when they all have the same argument.
   */
  lemma FirstSyncsLeaveMinimumIff(s0: Shared)
    requires Starting(s0, false) && !s0.synced && |s0.threads| > 0
    ensures (forall schedule: seq<nat> :: Finishes(s0, schedule) ==> IsMinimum(s0, Interleave(s0, schedule).value)) <==> SameArguments(s0)
  {
    if SameArguments(s0) {
      forall schedule: seq<nat> | Finishes(s0, schedule) ensures IsMinimum(s0, Interleave(s0, schedule).value) {
        EqualSyncsAgree(s0, schedule, s0.threads[0].call.v);
        assert Interleave(s0, schedule).threads[0].pc == Finished;
      }
    } else {
      var i, j :| 0 <= i < |s0.threads| && 0 <= j < |s0.threads| && s0.threads[i].call.v > s0.threads[j].call.v;
      var schedule := LastStoreWins(s0, i);
      assert !IsMinimum(s0, Interleave(s0, schedule).value);
    }
  }

  /** Whatever the start value and the arguments, any caller's argument can be what remains. */
  lemma LastStoreWins(s0: Shared, i: nat) returns (schedule: seq<nat>)
    requires Starting(s0, false) && !s0.synced && i < |s0.threads|
    ensures Finishes(s0, schedule) && Interleave(s0, schedule).value == s0.threads[i].call.v
  {
    hide Interleave;
    var n := |s0.threads|;
    OthersReturn(s0, i, n);
    schedule := [i] + Others(i, n) + [i];
    OneMore(s0, [i] + Others(i, n), i);
  }

  /** So of two callers with different arguments the lower one can be lost, from every start. */
  lemma OverlappingFirstSyncLosesMinimum(s0: Shared, i: nat, j: nat) returns (schedule: seq<nat>)
    requires Starting(s0, false) && !s0.synced && i < |s0.threads| && j < |s0.threads|
    requires s0.threads[j].call.v < s0.threads[i].call.v
    ensures Finishes(s0, schedule) && s0.threads[j].call.v < Interleave(s0, schedule).value
  {
    schedule := LastStoreWins(s0, i);
  }

  /** Whatever mix of advances and syncs runs, and however far, the value stays between bounds kept by the start and by the calls that move towards them. */
  lemma {:induction false} MixedCallsStayWithin(s0: Shared, schedule: seq<nat>, low: nat, high: nat)
    requires low <= s0.value <= high
    requires forall i :: 0 <= i < |s0.threads| ==> s0.threads[i].pc == Begin && StaysWithin(s0.threads[i].call, s0.synced, low, high)
    requires forall k :: 0 <= k < |schedule| ==> schedule[k] < |s0.threads|
    ensures low <= Interleave(s0, schedule).value <= high
    ensures forall i :: 0 <= i < |s0.threads| ==>
              var t := Interleave(s0, schedule).threads[i]; t.call == s0.threads[i].call && (t.pc == Storing ==> !s0.synced && t.call.SyncCall?)
    ensures s0.synced ==> Interleave(s0, schedule).synced
    decreases |schedule|
  {
    if schedule != [] {
      var rest, i := schedule[..|schedule| - 1], schedule[|schedule| - 1];
      MixedCallsStayWithin(s0, rest, low, high);
      var s := Interleave(s0, rest);
      assert s.threads[i].call == s0.threads[i].call && StaysWithin(s0.threads[i].call, s0.synced, low, high);
    }
  }

  /** Syncs only lower and advances only raise, except that a first sync stores its argument. */
  predicate StaysWithin(call: Call, synced: bool, low: nat, high: nat) {
    match call
    case AdvanceCall(v) => v <= high
    case SyncCall(v) => low <= v && (!synced ==> v <= high)
  }

  lemma NoAccess(s: Shared)
    ensures Interleave(s, []) == s
  {
  }
}
