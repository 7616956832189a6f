/**
 Scanning the encrypted outputs for the user's notes. The cache remembers the owned outputs up to the
 last one scanned; a call scans only what follows it. The reference is a full rescan.
 */
module OwnedNotes {
  import opened Wrappers
  import opened SnapshotModel
  import opened Positions

  const PARALLEL_DECRYPT_THRESHOLD: nat := 256

  /** nullifier is None when it cannot be computed. */
  datatype Note = Note(amount: int, token: string, h0: (int, int), nullifier: Option<string>, isBlocked: bool)

  /** What the user's keys make of an output: a note, or nothing. */
  type Decoder = EncryptedOutput -> Option<Note>

  datatype Cache = Cache(lastOutput: string, outputs: seq<EncryptedOutput>)

  const EMPTY_CACHE: Cache := Cache("", [])

  predicate IsIdentityPoint(h0: (int, int)) {
    h0.0 == 0 && h0.1 == 1
  }

  function Owned(decode: Decoder, outputs: seq<EncryptedOutput>): seq<EncryptedOutput> {
    if outputs == [] then []
    else
      var rest, last := Owned(decode, outputs[..|outputs| - 1]), outputs[|outputs| - 1];
      if decode(last).Some? then rest + [last] else rest
  }

  function DecodeOutputs(decode: Decoder, outputs: seq<EncryptedOutput>): seq<Note> {
    if outputs == [] then []
    else
      var rest, last := DecodeOutputs(decode, outputs[..|outputs| - 1]), outputs[|outputs| - 1];
      if decode(last).Some? then rest + [decode(last).value.(isBlocked := last.isBlocked)] else rest
  }

  predicate Spendable(note: Note, nullifiers: set<string>, useBlocked: bool) {
    note.nullifier.Some? && note.nullifier.value !in nullifiers && note.isBlocked == useBlocked && !IsIdentityPoint(note.h0)
  }

  function SpendableOf(notes: seq<Note>, nullifiers: set<string>, useBlocked: bool): seq<Note> {
    if notes == [] then []
    else
      var rest, last := SpendableOf(notes[..|notes| - 1], nullifiers, useBlocked), notes[|notes| - 1];
      if Spendable(last, nullifiers, useBlocked) then rest + [last] else rest
  }

  /** The reference: decode every output, keep the unspent notes of the wanted kind. */
  function Rescan(decode: Decoder, outputs: seq<EncryptedOutput>, nullifiers: set<string>, useBlocked: bool): seq<Note> {
    SpendableOf(DecodeOutputs(decode, outputs), nullifiers, useBlocked)
  }

  /** Position of the output with this value, or -1. */
  function IndexOfOutput(outputs: seq<EncryptedOutput>, value: string): (i: int)
    ensures -1 <= i < |outputs|
    ensures i >= 0 ==> outputs[i].value == value
    ensures forall k :: 0 <= k < |outputs| && (i < 0 || k < i) ==> outputs[k].value != value
  {
    if FirstWith(outputs, value) < |outputs| then FirstWith(outputs, value) else -1
  }

  /** What one call is given: the current lists, its options, and whether each of its checks passes. */
  datatype Call = Call(
    outputs: seq<EncryptedOutput>,
    nullifiers: set<string>,
    resetBefore: bool,
    readCacheOnly: bool,
    useBlocked: bool,
    addressBefore: bool,
    keyAvailable: bool,
    addressDuring: bool,
    addressAfter: bool)

  datatype Device = Memory(cache: Cache) | Noop

  function Read(device: Device): Cache {
    if device.Noop? then EMPTY_CACHE else device.cache
  }

  function Write(device: Device, cache: Cache): Device {
    if device.Noop? then device else Memory(cache)
  }

  predicate ScansLocally(cache: Cache, call: Call) {
    !call.readCacheOnly && (IndexOfOutput(call.outputs, cache.lastOutput) > -1 || cache.lastOutput == "")
  }

  /** The cache once everything after the last scanned output has been scanned. */
  function Scanned(decode: Decoder, cache: Cache, outputs: seq<EncryptedOutput>): Cache {
    var next := IndexOfOutput(outputs, cache.lastOutput) + 1;
    Cache(
      if |outputs| > 0 then outputs[|outputs| - 1].value else cache.lastOutput,
      cache.outputs + Owned(decode, outputs[next..]))
  }

  function GetInputUtxos(decode: Decoder, device: Device, call: Call): (Device, Result<seq<Note>, string>) {
    var device1 := if call.resetBefore then Write(device, EMPTY_CACHE) else device;
    var cache := Read(device1);
    if !call.addressBefore then (device1, Err("chain or address changed"))
    else if ScansLocally(cache, call) then
      if !call.keyAvailable then (device1, Err("no key"))
      else if !call.addressDuring then (device1, Err("chain or address changed"))
      else
        var scanned := Scanned(decode, cache, call.outputs);
        (Write(device1, scanned),
         if !call.addressAfter then Err("chain or address changed")
         else Ok(Rescan(decode, scanned.outputs, call.nullifiers, call.useBlocked)))
    else
      (device1,
       if !call.addressAfter then Err("chain or address changed")
       else Ok(Rescan(decode, cache.outputs, call.nullifiers, call.useBlocked)))
  }

  // --- The cache holds the owned part of a prefix.

  ghost predicate GoodOutputs(outputs: seq<EncryptedOutput>) {
    && (forall i :: 0 <= i < |outputs| ==> outputs[i].value != "")
    && (forall i, j :: 0 <= i < j < |outputs| ==> outputs[i].value != outputs[j].value)
  }

  ghost predicate CoversPrefix(decode: Decoder, cache: Cache, outputs: seq<EncryptedOutput>, k: nat) {
    && k <= |outputs|
    && cache.outputs == Owned(decode, outputs[..k])
    && cache.lastOutput == (if k == 0 then "" else outputs[k - 1].value)
  }

  lemma {:induction false} OwnedConcat(decode: Decoder, a: seq<EncryptedOutput>, b: seq<EncryptedOutput>)
    ensures Owned(decode, a + b) == Owned(decode, a) + Owned(decode, b)
    decreases |b|
  {
    if b == [] {
      assert a + b == a;
    } else {
      OwnedConcat(decode, a, b[..|b| - 1]);
      assert (a + b)[..|a + b| - 1] == a + b[..|b| - 1];
    }
  }

  /** Decoding only the owned outputs gives every note. */
  lemma {:induction false} OwnedSuffice(decode: Decoder, outputs: seq<EncryptedOutput>)
    ensures DecodeOutputs(decode, Owned(decode, outputs)) == DecodeOutputs(decode, outputs)
    decreases |outputs|
  {
    if outputs != [] {
      var rest, last := outputs[..|outputs| - 1], outputs[|outputs| - 1];
      OwnedSuffice(decode, rest);
      if decode(last).Some? {
        assert Owned(decode, outputs)[..|Owned(decode, outputs)| - 1] == Owned(decode, rest);
      }
    }
  }

  lemma ScanCompletes(decode: Decoder, cache: Cache, outputs: seq<EncryptedOutput>, k: nat)
    requires GoodOutputs(outputs) && CoversPrefix(decode, cache, outputs, k)
    ensures IndexOfOutput(outputs, cache.lastOutput) == k - 1
    ensures CoversPrefix(decode, Scanned(decode, cache, outputs), outputs, |outputs|)
  {
    hide Owned;
    var i := IndexOfOutput(outputs, cache.lastOutput);
    assert k > 0 ==> outputs[k - 1].value == cache.lastOutput;
    assert outputs[..|outputs|] == outputs == outputs[..k] + outputs[k..];
    OwnedConcat(decode, outputs[..k], outputs[k..]);
    if outputs == [] { assert outputs[k..] == []; }
  }

  /**
   One call: a scanning call answers as a full rescan and leaves the cache covering the whole list; a
   call told to read the cache answers for the covered prefix; a failing call leaves a covered prefix.
   */
  lemma CallAnswersRescan(decode: Decoder, device: Device, call: Call, k: nat) returns (k': nat)
    requires GoodOutputs(call.outputs) && CoversPrefix(decode, Read(device), call.outputs, k)
    ensures var (device', answer) := GetInputUtxos(decode, device, call);
            && CoversPrefix(decode, Read(device'), call.outputs, k')
            && (answer.Ok? && !call.readCacheOnly ==>
                  answer.value == Rescan(decode, call.outputs, call.nullifiers, call.useBlocked)
                  && (device.Memory? ==> k' == |call.outputs|))
            && (answer.Ok? && call.readCacheOnly ==>
                  answer.value == Rescan(decode, call.outputs[..k'], call.nullifiers, call.useBlocked)
                  && k' == if call.resetBefore then 0 else k)
  {
    hide Owned, DecodeOutputs, SpendableOf, Scanned;
    var k1 := if call.resetBefore || device.Noop? then 0 else k;
    var device1 := if call.resetBefore then Write(device, EMPTY_CACHE) else device;
    assert call.outputs[..0] == [] && Owned(decode, []) == [] by { OwnedNothing(decode); }
    assert CoversPrefix(decode, Read(device1), call.outputs, k1);
    ScanCompletes(decode, Read(device1), call.outputs, k1);
    assert call.outputs[..|call.outputs|] == call.outputs;
    OwnedSuffice(decode, call.outputs);
    OwnedSuffice(decode, call.outputs[..k1]);
    var device' := GetInputUtxos(decode, device, call).0;
    k' := if device' == device1 || device.Noop? then k1 else |call.outputs|;
    if device'.Memory? && device' == device1 && ScansLocally(Read(device1), call) && call.addressBefore && call.keyAvailable && call.addressDuring {
      k' := |call.outputs|;
    }
    if device.Noop? && call.readCacheOnly && !call.resetBefore {
      NoopCoversNothing(decode, device, call.outputs, k);
    }
  }

  lemma OwnedNothing(decode: Decoder)
    ensures Owned(decode, []) == []
  {
  }

  /** A cache that remembers nothing covers only the empty prefix. */
  lemma NoopCoversNothing(decode: Decoder, device: Device, outputs: seq<EncryptedOutput>, k: nat)
    requires device.Noop? && GoodOutputs(outputs) && CoversPrefix(decode, Read(device), outputs, k)
    ensures k == 0
  {
  }

  // --- Whole runs over a growing list.

  function After(decode: Decoder, device: Device, calls: seq<Call>): Device {
    if calls == [] then device
    else GetInputUtxos(decode, After(decode, device, calls[..|calls| - 1]), calls[|calls| - 1]).0
  }

  /** The list only grows by appending, and stays free of duplicates and empty values. */
  ghost predicate Growing(calls: seq<Call>) {
    && (forall i :: 0 <= i < |calls| ==> GoodOutputs(calls[i].outputs))
    && (forall i :: 0 < i < |calls| ==> calls[i - 1].outputs <= calls[i].outputs)
  }

  lemma CoversGrows(decode: Decoder, cache: Cache, outputs: seq<EncryptedOutput>, outputs': seq<EncryptedOutput>, k: nat)
    requires CoversPrefix(decode, cache, outputs, k) && outputs <= outputs'
    ensures CoversPrefix(decode, cache, outputs', k)
  {
    assert outputs'[..k] == outputs[..k];
  }

  lemma {:induction false} RunCovers(decode: Decoder, device: Device, calls: seq<Call>) returns (k: nat)
    requires Growing(calls) && Read(device) == EMPTY_CACHE && calls != []
    ensures CoversPrefix(decode, Read(After(decode, device, calls)), calls[|calls| - 1].outputs, k)
    decreases |calls|, 0
  {
    hide Owned, GetInputUtxos;
    var rest, last := calls[..|calls| - 1], calls[|calls| - 1];
    k := RunBefore(decode, device, rest, last);
    k := CallAnswersRescan(decode, After(decode, device, rest), last, k);
  }

  /** Before a call the device covers a prefix of that call's list. */
  lemma {:induction false} RunBefore(decode: Decoder, device: Device, rest: seq<Call>, last: Call) returns (k: nat)
    requires Growing(rest + [last]) && Read(device) == EMPTY_CACHE
    ensures CoversPrefix(decode, Read(After(decode, device, rest)), last.outputs, k)
    decreases |rest|, 1
  {
    hide Owned, GetInputUtxos;
    var calls := rest + [last];
    if rest == [] {
      k := 0;
      assert last.outputs[..0] == [];
      OwnedNothing(decode);
    } else {
      assert calls[|rest|] == last && calls[|rest| - 1] == rest[|rest| - 1];
      forall i | 0 <= i < |rest| ensures GoodOutputs(rest[i].outputs) { assert calls[i] == rest[i]; }
      forall i | 0 < i < |rest| ensures rest[i - 1].outputs <= rest[i].outputs { assert calls[i] == rest[i] && calls[i - 1] == rest[i - 1]; }
      k := RunCovers(decode, device, rest);
      CoversGrows(decode, Read(After(decode, device, rest)), rest[|rest| - 1].outputs, last.outputs, k);
    }
  }

  /** Over any run on a growing list, from an empty or no-op cache, every successful scanning call answers as a full rescan. */
  lemma EveryCallAnswersRescan(decode: Decoder, device: Device, before: seq<Call>, call: Call)
    requires Growing(before + [call]) && Read(device) == EMPTY_CACHE && !call.readCacheOnly
    ensures var answer := GetInputUtxos(decode, After(decode, device, before), call).1;
            && (answer.Ok? <==> call.addressBefore && call.keyAvailable && call.addressDuring && call.addressAfter)
            && (answer.Ok? ==> answer.value == Rescan(decode, call.outputs, call.nullifiers, call.useBlocked))
  {
    hide Owned, Scanned;
    var k := RunBefore(decode, device, before, call);
    assert GoodOutputs(call.outputs) by { assert (before + [call])[|before|] == call; }
    var d := After(decode, device, before);
    var _ := CallAnswersRescan(decode, d, call, k);
    assert call.outputs[..0] == [] && Owned(decode, []) == [] by { OwnedNothing(decode); }
    ScanCompletes(decode, Read(d), call.outputs, k);
    ScanCompletes(decode, EMPTY_CACHE, call.outputs, 0);
  }

  // --- Which notes a call returns.

  /** A note a call may hand out: of the wanted kind, with a nullifier that is computed and not spent, and not at the identity point. */
  predicate Unspent(note: Note, nullifiers: set<string>, useBlocked: bool) {
    && note.isBlocked == useBlocked
    && note.nullifier.Some? && note.nullifier.value !in nullifiers
    && note.h0 != (0, 1)
  }

  /** The notes at these ascending positions are the unspent ones. */
  predicate UnspentAt(notes: seq<Note>, nullifiers: set<string>, useBlocked: bool, out: seq<Note>, at: seq<nat>) {
    && Ascending(at, |notes|) && |at| == |out|
    && (forall j :: 0 <= j < |at| ==> out[j] == notes[at[j]])
    && forall i :: 0 <= i < |notes| ==> (i in at <==> Unspent(notes[i], nullifiers, useBlocked))
  }

  /** The user's note in an output, which carries the output's own blocked flag. */
  predicate Yields(decode: Decoder, output: EncryptedOutput, note: Note) {
    decode(output).Some? && note == decode(output).value.(isBlocked := output.isBlocked)
  }

  predicate Usable(decode: Decoder, output: EncryptedOutput, nullifiers: set<string>, useBlocked: bool) {
    decode(output).Some? && Unspent(decode(output).value.(isBlocked := output.isBlocked), nullifiers, useBlocked)
  }

  /** One note for each output at these ascending positions, which are those of all usable outputs. */
  predicate UsableAt(decode: Decoder, outputs: seq<EncryptedOutput>, nullifiers: set<string>, useBlocked: bool, notes: seq<Note>, at: seq<nat>) {
    && Ascending(at, |outputs|) && |at| == |notes|
    && (forall j :: 0 <= j < |at| ==> Yields(decode, outputs[at[j]], notes[j]))
    && forall i :: 0 <= i < |outputs| ==> (i in at <==> Usable(decode, outputs[i], nullifiers, useBlocked))
  }

  ghost predicate ListsUsable(decode: Decoder, outputs: seq<EncryptedOutput>, nullifiers: set<string>, useBlocked: bool, notes: seq<Note>) {
    exists at :: UsableAt(decode, outputs, nullifiers, useBlocked, notes, at)
  }

  lemma {:induction false} SpendableAt(notes: seq<Note>, nullifiers: set<string>, useBlocked: bool) returns (at: seq<nat>)
    ensures UnspentAt(notes, nullifiers, useBlocked, SpendableOf(notes, nullifiers, useBlocked), at)
    decreases |notes|
  {
    if notes == [] {
      at := [];
    } else {
      var n := |notes| - 1;
      at := SpendableAt(notes[..n], nullifiers, useBlocked);
      Extended(at, n);
      if Unspent(notes[n], nullifiers, useBlocked) { at := at + [n]; }
    }
  }

  lemma {:induction false} RescanLists(decode: Decoder, outputs: seq<EncryptedOutput>, nullifiers: set<string>, useBlocked: bool) returns (at: seq<nat>)
    ensures UsableAt(decode, outputs, nullifiers, useBlocked, Rescan(decode, outputs, nullifiers, useBlocked), at)
    decreases |outputs|
  {
    hide SpendableOf;
    if outputs == [] {
      at := [];
      NoneSpendable(nullifiers, useBlocked);
    } else {
      var n := |outputs| - 1;
      at := RescanLists(decode, outputs[..n], nullifiers, useBlocked);
      Extended(at, n);
      if decode(outputs[n]).Some? {
        SpendableNext(DecodeOutputs(decode, outputs[..n]), decode(outputs[n]).value.(isBlocked := outputs[n].isBlocked), nullifiers, useBlocked);
      }
      if Usable(decode, outputs[n], nullifiers, useBlocked) { at := at + [n]; }
    }
  }

  lemma NoneSpendable(nullifiers: set<string>, useBlocked: bool)
    ensures SpendableOf([], nullifiers, useBlocked) == []
  {
  }

  /**
   Over any run on a growing list, from an empty or no-op cache, every successful scanning call returns, in the list's order, one
   note for each output that decodes to an unspent note of the wanted kind: a note is returned exactly when such an output is listed.
   */
  lemma EveryCallListsUnspent(decode: Decoder, device: Device, before: seq<Call>, call: Call)
    requires Growing(before + [call]) && Read(device) == EMPTY_CACHE && !call.readCacheOnly
    requires GetInputUtxos(decode, After(decode, device, before), call).1.Ok?
    ensures var notes := GetInputUtxos(decode, After(decode, device, before), call).1.value;
            && ListsUsable(decode, call.outputs, call.nullifiers, call.useBlocked, notes)
            && forall note :: note in notes <==>
                 exists i :: 0 <= i < |call.outputs| && Yields(decode, call.outputs[i], note) && Unspent(note, call.nullifiers, call.useBlocked)
  {
    hide GetInputUtxos, Rescan, Growing, UsableAt;
    EveryCallAnswersRescan(decode, device, before, call);
    var at := RescanLists(decode, call.outputs, call.nullifiers, call.useBlocked);
    var notes: seq<Note> := GetInputUtxos(decode, After(decode, device, before), call).1.value;
    MembersOfList(decode, call.outputs, call.nullifiers, call.useBlocked, notes, at);
  }

  lemma MembersOfList(decode: Decoder, outputs: seq<EncryptedOutput>, nullifiers: set<string>, useBlocked: bool, notes: seq<Note>, at: seq<nat>)
    requires UsableAt(decode, outputs, nullifiers, useBlocked, notes, at)
    ensures forall note :: note in notes <==>
              exists i :: 0 <= i < |outputs| && Yields(decode, outputs[i], note) && Unspent(note, nullifiers, useBlocked)
  {
    hide Unspent;
    forall note ensures note in notes <==> exists i :: 0 <= i < |outputs| && Yields(decode, outputs[i], note) && Unspent(note, nullifiers, useBlocked) {
      if note in notes {
        var j :| 0 <= j < |notes| && notes[j] == note;
        assert at[j] in at;
        assert Yields(decode, outputs[at[j]], note);
      }
      if i :| 0 <= i < |outputs| && Yields(decode, outputs[i], note) && Unspent(note, nullifiers, useBlocked) {
        var j :| 0 <= j < |at| && at[j] == i;
        assert notes[j] == note;
      }
    }
  }

  /** The notes left out are exactly those that carry the nullifier; the others keep their order. */
  predicate LeavesOut(notes: seq<Note>, nullifier: string, left: seq<Note>, at: seq<nat>) {
    && Ascending(at, |notes|) && |at| == |left|
    && (forall j :: 0 <= j < |at| ==> left[j] == notes[at[j]])
    && forall i :: 0 <= i < |notes| ==> (i in at <==> notes[i].nullifier != Some(nullifier))
  }

  lemma {:induction false} SpendingLeavesOut(notes: seq<Note>, nullifiers: set<string>, useBlocked: bool, nullifier: string) returns (at: seq<nat>)
    ensures LeavesOut(SpendableOf(notes, nullifiers, useBlocked), nullifier, SpendableOf(notes, nullifiers + {nullifier}, useBlocked), at)
    decreases |notes|
  {
    if notes == [] {
      at := [];
    } else {
      hide SpendableOf, LeavesOut, Spendable;
      var n := |notes| - 1;
      var before, after := SpendableOf(notes[..n], nullifiers, useBlocked), SpendableOf(notes[..n], nullifiers + {nullifier}, useBlocked);
      at := SpendingLeavesOut(notes[..n], nullifiers, useBlocked, nullifier);
      assert notes == notes[..n] + [notes[n]];
      SpendableNext(notes[..n], notes[n], nullifiers, useBlocked);
      SpendableNext(notes[..n], notes[n], nullifiers + {nullifier}, useBlocked);
      SpendableLess(notes[n], nullifiers, useBlocked, nullifier);
      if Spendable(notes[n], nullifiers, useBlocked) {
        LeavesOutNext(before, nullifier, after, at, notes[n]);
        if notes[n].nullifier != Some(nullifier) { at := at + [|before|]; } else { assert after + [] == after; }
      } else {
        assert before + [] == before && after + [] == after;
      }
    }
  }

  lemma SpendableLess(note: Note, nullifiers: set<string>, useBlocked: bool, nullifier: string)
    ensures Spendable(note, nullifiers + {nullifier}, useBlocked) <==> Spendable(note, nullifiers, useBlocked) && note.nullifier != Some(nullifier)
  {
  }

  lemma LeavesOutNext(notes: seq<Note>, nullifier: string, left: seq<Note>, at: seq<nat>, note: Note)
    requires LeavesOut(notes, nullifier, left, at)
    ensures if note.nullifier == Some(nullifier) then LeavesOut(notes + [note], nullifier, left, at)
            else LeavesOut(notes + [note], nullifier, left + [note], at + [|notes|])
  {
    Extended(at, |notes|);
  }

  /** After one more nullifier is known, the same scanning call returns the same notes in the same order but for exactly those that carry it. */
  lemma NullifierRemovesItsNotes(decode: Decoder, device: Device, before: seq<Call>, call: Call, nullifier: string)
    requires Growing(before + [call]) && Read(device) == EMPTY_CACHE && !call.readCacheOnly
    requires GetInputUtxos(decode, After(decode, device, before), call).1.Ok?
    ensures var d := After(decode, device, before);
            var later := GetInputUtxos(decode, d, call.(nullifiers := call.nullifiers + {nullifier})).1;
            && later.Ok? && exists at :: LeavesOut(GetInputUtxos(decode, d, call).1.value, nullifier, later.value, at)
  {
    hide GetInputUtxos, SpendableOf, DecodeOutputs, LeavesOut;
    var later := call.(nullifiers := call.nullifiers + {nullifier});
    SameGrowth(before, call, later);
    EveryCallAnswersRescan(decode, device, before, call);
    EveryCallAnswersRescan(decode, device, before, later);
    var at := SpendingLeavesOut(DecodeOutputs(decode, call.outputs), call.nullifiers, call.useBlocked, nullifier);
  }

  lemma SameGrowth(before: seq<Call>, call: Call, later: Call)
    requires Growing(before + [call]) && later.outputs == call.outputs
    ensures Growing(before + [later])
  {
    var a, b := before + [call], before + [later];
    assert forall i :: 0 <= i < |b| ==> b[i].outputs == a[i].outputs;
  }

  /** An output removed from the list, as when its leaf is replaced, stays in the cache: its note is still returned. */
  lemma RemovedOutputIsStillReturned(a: EncryptedOutput, b: EncryptedOutput, note: Note, decode: Decoder)
    requires a.value != b.value && a.value != "" && b.value != ""
    requires decode(a) == Some(note.(isBlocked := a.isBlocked)) && decode(b) == None && Spendable(note.(isBlocked := a.isBlocked), {}, a.isBlocked)
    ensures var scan := Call([a, b], {}, false, false, a.isBlocked, true, true, true, true);
            var again := scan.(outputs := [b]);
            var device := GetInputUtxos(decode, Memory(EMPTY_CACHE), scan).0;
            && GetInputUtxos(decode, device, again).1 == Ok([note.(isBlocked := a.isBlocked)])
            && Rescan(decode, [b], {}, a.isBlocked) == []
  {
    hide FirstWith, Owned, DecodeOutputs, SpendableOf, Scanned, IndexOfOutput, Rescan;
    var n := note.(isBlocked := a.isBlocked);
    ScansOfTwo(decode, a, b);
    NotesOfOne(decode, a, b, n);
  }

  /** From nothing, both outputs are scanned and the owned one kept; on the shorter list nothing is new. */
  lemma ScansOfTwo(decode: Decoder, a: EncryptedOutput, b: EncryptedOutput)
    requires a.value != b.value && a.value != "" && b.value != "" && decode(a).Some? && decode(b).None?
    ensures Scanned(decode, EMPTY_CACHE, [a, b]) == Cache(b.value, [a])
    ensures Scanned(decode, Cache(b.value, [a]), [b]) == Cache(b.value, [a])
    ensures IndexOfOutput([b], b.value) == 0
  {
    hide FirstWith, Owned;
    assert [a, b][0..] == [a, b] && [b][1..] == [];
    OwnedNothing(decode);
    OneOwned(decode, a, b);
    assert IndexOfOutput([a, b], "") == -1;
    assert [b][0].value == b.value && IndexOfOutput([b], b.value) == 0;
    assert [a] + [] == [a] && [] + [a] == [a];
  }

  lemma OneOwned(decode: Decoder, a: EncryptedOutput, b: EncryptedOutput)
    requires decode(a).Some? && decode(b).None?
    ensures Owned(decode, [a, b]) == [a]
  {
    assert [a, b][..1] == [a] && [a][..0] == [];
    assert Owned(decode, [a]) == [a];
  }

  lemma NotesOfOne(decode: Decoder, a: EncryptedOutput, b: EncryptedOutput, n: Note)
    requires decode(a) == Some(n) && decode(b).None? && n.isBlocked == a.isBlocked && Spendable(n, {}, a.isBlocked)
    ensures Rescan(decode, [a], {}, a.isBlocked) == [n] && Rescan(decode, [b], {}, a.isBlocked) == []
  {
    assert [a][..0] == [] && [b][..0] == [] && [n][..0] == [] && n.(isBlocked := a.isBlocked) == n;
    assert DecodeOutputs(decode, []) == [] && SpendableOf([], {}, a.isBlocked) == [];
    assert DecodeOutputs(decode, [a]) == [] + [n];
    assert SpendableOf([n], {}, a.isBlocked) == [] + [n];
  }

  // --- Any run, whatever happens to the list.

  /** The cache once a list has been scanned: its last output and what of it is owned. */
  function CacheOf(decode: Decoder, seen: seq<EncryptedOutput>): Cache {
    Cache(if seen == [] then "" else seen[|seen| - 1].value, Owned(decode, seen))
  }

  /** Where the last scanned output now is, or -1. */
  function Resume(seen: seq<EncryptedOutput>, now: seq<EncryptedOutput>): (j: int)
    ensures -1 <= j < |now|
  {
    IndexOfOutput(now, if seen == [] then "" else seen[|seen| - 1].value)
  }

  /** The last scanned output is no longer in the list. */
  predicate Gone(seen: seq<EncryptedOutput>, now: seq<EncryptedOutput>) {
    seen != [] && Resume(seen, now) == -1
  }

  /** What has been scanned after one more call: what follows the last scanned output is added; nothing, if that output is gone. */
  function SeenNext(seen: seq<EncryptedOutput>, now: seq<EncryptedOutput>): seq<EncryptedOutput> {
    if Gone(seen, now) then seen else seen + now[Resume(seen, now) + 1..]
  }

  function Seen(lists: seq<seq<EncryptedOutput>>): seq<EncryptedOutput> {
    if lists == [] then [] else SeenNext(Seen(lists[..|lists| - 1]), lists[|lists| - 1])
  }

  /** A scanning call whose checks all pass. */
  function Scan(now: seq<EncryptedOutput>, nullifiers: set<string>, useBlocked: bool): Call {
    Call(now, nullifiers, false, false, useBlocked, true, true, true, true)
  }

  predicate ValuesGiven(outputs: seq<EncryptedOutput>) {
    forall i :: 0 <= i < |outputs| ==> outputs[i].value != ""
  }

  /** One scanning call on any list: the answer is a rescan of everything scanned so far, the new tail included. */
  lemma ScanSees(decode: Decoder, seen: seq<EncryptedOutput>, now: seq<EncryptedOutput>, nullifiers: set<string>, useBlocked: bool)
    requires ValuesGiven(seen) && ValuesGiven(now)
    ensures ValuesGiven(SeenNext(seen, now))
    ensures GetInputUtxos(decode, Memory(CacheOf(decode, seen)), Scan(now, nullifiers, useBlocked)) ==
            (Memory(CacheOf(decode, SeenNext(seen, now))), Ok(Rescan(decode, SeenNext(seen, now), nullifiers, useBlocked)))
  {
    hide Owned, DecodeOutputs, SpendableOf, IndexOfOutput, Scanned, SeenNext, Resume;
    var cache, next := CacheOf(decode, seen), SeenNext(seen, now);
    ScansUnlessGone(decode, seen, now, nullifiers, useBlocked);
    OwnedSuffice(decode, next);
    if Gone(seen, now) {
      assert next == seen by { NothingSeen(seen, now); }
    } else {
      ScannedIsSeen(decode, seen, now);
    }
  }

  lemma NothingSeen(seen: seq<EncryptedOutput>, now: seq<EncryptedOutput>)
    requires Gone(seen, now)
    ensures SeenNext(seen, now) == seen
  {
  }

  lemma ScansUnlessGone(decode: Decoder, seen: seq<EncryptedOutput>, now: seq<EncryptedOutput>, nullifiers: set<string>, useBlocked: bool)
    requires ValuesGiven(seen) && ValuesGiven(now)
    ensures ScansLocally(CacheOf(decode, seen), Scan(now, nullifiers, useBlocked)) <==> !Gone(seen, now)
    ensures ValuesGiven(SeenNext(seen, now))
  {
    hide Owned, FirstWith;
  }

  lemma ScannedIsSeen(decode: Decoder, seen: seq<EncryptedOutput>, now: seq<EncryptedOutput>)
    requires ValuesGiven(seen) && ValuesGiven(now) && !Gone(seen, now)
    ensures Scanned(decode, CacheOf(decode, seen), now) == CacheOf(decode, SeenNext(seen, now))
  {
    hide Owned, FirstWith, IndexOfOutput;
    var j, next := Resume(seen, now), SeenNext(seen, now);
    OwnedConcat(decode, seen, now[j + 1..]);
    if now == [] {
      assert seen == [] && next == [];
    } else if j == |now| - 1 {
      assert now[j + 1..] == [] && next == seen;
    } else {
      assert next[|next| - 1] == now[|now| - 1];
    }
  }

  /** If the last scanned output leaves the list, the cache is frozen: every scanning call on a list without it answers from what was scanned before and scans nothing. */
  lemma GoneOutputFreezesCache(decode: Decoder, seen: seq<EncryptedOutput>, now: seq<EncryptedOutput>, nullifiers: set<string>, useBlocked: bool)
    requires ValuesGiven(seen) && ValuesGiven(now) && seen != []
    requires forall i :: 0 <= i < |now| ==> now[i].value != seen[|seen| - 1].value
    ensures GetInputUtxos(decode, Memory(CacheOf(decode, seen)), Scan(now, nullifiers, useBlocked)) ==
            (Memory(CacheOf(decode, seen)), Ok(Rescan(decode, seen, nullifiers, useBlocked)))
  {
    hide Owned, DecodeOutputs, SpendableOf, FirstWith, Rescan, GetInputUtxos;
    assert Gone(seen, now);
    ScanSees(decode, seen, now, nullifiers, useBlocked);
  }

  /** The outputs of one kind, in order. */
  function Part(outputs: seq<EncryptedOutput>, blocked: bool): seq<EncryptedOutput> {
    if outputs == [] then []
    else
      var rest, last := Part(outputs[..|outputs| - 1], blocked), outputs[|outputs| - 1];
      if last.isBlocked == blocked then rest + [last] else rest
  }

  lemma {:induction false} PartConcat(a: seq<EncryptedOutput>, b: seq<EncryptedOutput>, blocked: bool)
    ensures Part(a + b, blocked) == Part(a, blocked) + Part(b, blocked)
    decreases |b|
  {
    if b == [] {
      assert a + b == a;
    } else {
      PartConcat(a, b[..|b| - 1], blocked);
      assert (a + b)[..|a + b| - 1] == a + b[..|b| - 1];
    }
  }

  lemma SpendableNext(notes: seq<Note>, note: Note, nullifiers: set<string>, useBlocked: bool)
    ensures SpendableOf(notes + [note], nullifiers, useBlocked) ==
            SpendableOf(notes, nullifiers, useBlocked) + if Spendable(note, nullifiers, useBlocked) then [note] else []
  {
    assert (notes + [note])[..|notes|] == notes;
  }

  /** A rescan looks only at the outputs of the wanted kind. */
  lemma {:induction false} RescanOfPart(decode: Decoder, outputs: seq<EncryptedOutput>, nullifiers: set<string>, useBlocked: bool)
    ensures Rescan(decode, Part(outputs, useBlocked), nullifiers, useBlocked) == Rescan(decode, outputs, nullifiers, useBlocked)
    decreases |outputs|
  {
    hide SpendableOf;
    if outputs != [] {
      var rest, last := outputs[..|outputs| - 1], outputs[|outputs| - 1];
      RescanOfPart(decode, rest, nullifiers, useBlocked);
      if last.isBlocked == useBlocked { assert Part(outputs, useBlocked)[..|Part(outputs, useBlocked)| - 1] == Part(rest, useBlocked); }
      if decode(last).Some? {
        var note := decode(last).value.(isBlocked := last.isBlocked);
        SpendableNext(DecodeOutputs(decode, rest), note, nullifiers, useBlocked);
        SpendableNext(DecodeOutputs(decode, Part(rest, useBlocked)), note, nullifiers, useBlocked);
      }
    }
  }

  /** A decoder that owns everything and tells all outputs apart. */
  function Tell(output: EncryptedOutput): Option<Note> {
    Some(Note(if output.isPositive then 1 else 0, output.value, (1, 1), Some(output.blob), output.isBlocked))
  }

  lemma {:induction false} TellRescan(outputs: seq<EncryptedOutput>, blocked: bool)
    ensures var part, notes := Part(outputs, blocked), Rescan(Tell, outputs, {}, blocked);
            |notes| == |part| && forall i :: 0 <= i < |part| ==> Tell(part[i]) == Some(notes[i])
    decreases |outputs|
  {
    hide SpendableOf;
    if outputs == [] {
      assert SpendableOf([], {}, blocked) == [] by { NoNotesToSpend(blocked); }
    } else {
      var rest, last := outputs[..|outputs| - 1], outputs[|outputs| - 1];
      TellRescan(rest, blocked);
      SpendableNext(DecodeOutputs(Tell, rest), Tell(last).value, {}, blocked);
    }
  }

  lemma NoNotesToSpend(blocked: bool)
    ensures SpendableOf([], {}, blocked) == []
  {
  }

  predicate SameParts(a: seq<EncryptedOutput>, b: seq<EncryptedOutput>) {
    Part(a, true) == Part(b, true) && Part(a, false) == Part(b, false)
  }

  predicate SameRescan(decode: Decoder, a: seq<EncryptedOutput>, b: seq<EncryptedOutput>, nullifiers: set<string>, useBlocked: bool) {
    Rescan(decode, a, nullifiers, useBlocked) == Rescan(decode, b, nullifiers, useBlocked)
  }

  /** Two lists give the same notes to every user and every call exactly when their unblocked and their blocked outputs agree. */
  lemma SameRescanIff(a: seq<EncryptedOutput>, b: seq<EncryptedOutput>)
    ensures (forall decode: Decoder, nullifiers, useBlocked :: SameRescan(decode, a, b, nullifiers, useBlocked)) <==> SameParts(a, b)
  {
    hide Rescan, Part;
    if SameParts(a, b) {
      forall decode: Decoder, nullifiers, useBlocked ensures SameRescan(decode, a, b, nullifiers, useBlocked) {
        RescanOfPart(decode, a, nullifiers, useBlocked);
        RescanOfPart(decode, b, nullifiers, useBlocked);
      }
    } else {
      var blocked := Part(a, true) != Part(b, true);
      TellRescan(a, blocked);
      TellRescan(b, blocked);
      if SameRescan(Tell, a, b, {}, blocked) { TellsApart(Part(a, blocked), Part(b, blocked)); }
      assert !SameRescan(Tell, a, b, {}, blocked);
    }
  }

  lemma TellsApart(a: seq<EncryptedOutput>, b: seq<EncryptedOutput>)
    requires |a| == |b| && forall i :: 0 <= i < |a| ==> Tell(a[i]) == Tell(b[i])
    ensures a == b
  {
    forall i | 0 <= i < |a| ensures a[i] == b[i] {
      assert Tell(a[i]) == Tell(b[i]);
    }
  }

  /** What a call answers is a full rescan of the current list. */
  predicate AnswersRescan(decode: Decoder, seen: seq<EncryptedOutput>, now: seq<EncryptedOutput>, nullifiers: set<string>, useBlocked: bool) {
    GetInputUtxos(decode, Memory(CacheOf(decode, seen)), Scan(now, nullifiers, useBlocked)).1 == Ok(Rescan(decode, now, nullifiers, useBlocked))
  }

  /**
   When a cache that has scanned one list meets another: its calls answer as full rescans of the new list, for every user and
   all options, exactly when the scanned outputs of each kind are those of the new list up to the last scanned output; or those
   of the whole new list, when that output is gone from it.
   */
  lemma ScanAnswersRescanIff(seen: seq<EncryptedOutput>, now: seq<EncryptedOutput>)
    requires ValuesGiven(seen) && ValuesGiven(now)
    ensures (forall decode: Decoder, nullifiers, useBlocked :: AnswersRescan(decode, seen, now, nullifiers, useBlocked)) <==>
            SameParts(seen, if Gone(seen, now) then now else now[..Resume(seen, now) + 1])
  {
    hide Rescan, Part, GetInputUtxos, CacheOf, SeenNext, SameRescan, Gone;
    var next, j := SeenNext(seen, now), Resume(seen, now);
    forall decode: Decoder, nullifiers, useBlocked
      ensures AnswersRescan(decode, seen, now, nullifiers, useBlocked) <==> SameRescan(decode, next, now, nullifiers, useBlocked)
    {
      ScanIsRescanOf(decode, seen, now, nullifiers, useBlocked);
    }
    SameRescanIff(next, now);
    PartsAfter(seen, now);
  }

  lemma ScanIsRescanOf(decode: Decoder, seen: seq<EncryptedOutput>, now: seq<EncryptedOutput>, nullifiers: set<string>, useBlocked: bool)
    requires ValuesGiven(seen) && ValuesGiven(now)
    ensures AnswersRescan(decode, seen, now, nullifiers, useBlocked) <==> SameRescan(decode, SeenNext(seen, now), now, nullifiers, useBlocked)
  {
    hide Rescan, GetInputUtxos, CacheOf, SeenNext;
    ScanSees(decode, seen, now, nullifiers, useBlocked);
  }

  lemma PartsAfter(seen: seq<EncryptedOutput>, now: seq<EncryptedOutput>)
    ensures SameParts(SeenNext(seen, now), now) <==> SameParts(seen, if Gone(seen, now) then now else now[..Resume(seen, now) + 1])
  {
    hide Part;
    if !Gone(seen, now) {
      var front, tail := now[..Resume(seen, now) + 1], now[Resume(seen, now) + 1..];
      assert now == front + tail;
      forall blocked ensures Part(seen + tail, blocked) == Part(now, blocked) <==> Part(seen, blocked) == Part(front, blocked) {
        PartConcat(seen, tail, blocked);
        PartConcat(front, tail, blocked);
        CancelTail(Part(seen, blocked), Part(front, blocked), Part(tail, blocked));
      }
    }
  }

  lemma CancelTail<T>(a: seq<T>, b: seq<T>, tail: seq<T>)
    ensures a + tail == b + tail <==> a == b
  {
    if a + tail == b + tail {
      assert |a + tail| == |a| + |tail| && |b + tail| == |b| + |tail|;
      assert a == (a + tail)[..|a|] == (b + tail)[..|b|] == b;
    }
  }

  /** In every run of scanning calls, whatever each list is, the cache holds the owned part of everything seen. */
  lemma {:induction false} RunSees(decode: Decoder, calls: seq<Call>, lists: seq<seq<EncryptedOutput>>)
    requires |calls| == |lists| && forall i :: 0 <= i < |calls| ==> calls[i] == Scan(lists[i], calls[i].nullifiers, calls[i].useBlocked) && ValuesGiven(lists[i])
    ensures ValuesGiven(Seen(lists)) && After(decode, Memory(EMPTY_CACHE), calls) == Memory(CacheOf(decode, Seen(lists)))
    decreases |calls|
  {
    hide GetInputUtxos, Owned, SeenNext;
    if calls == [] {
      OwnedNothing(decode);
    } else {
      var n := |calls| - 1;
      RunSees(decode, calls[..n], lists[..n]);
      ScanSees(decode, Seen(lists[..n]), lists[n], calls[n].nullifiers, calls[n].useBlocked);
    }
  }

  // --- The calls as the client makes them, on an object that keeps the cache.

  class NoteScanner {
    const decode: Decoder
    var device: Device

    constructor (decode: Decoder, noop: bool)
      ensures this.decode == decode && Read(device) == EMPTY_CACHE
    {
      this.decode := decode;
      device := if noop then Noop else Memory(EMPTY_CACHE);
    }

    method GetInputUtxoAndBalance(call: Call, workers: nat) returns (notes: Result<seq<Note>, string>)
      requires workers > 0
      modifies this
      ensures (device, notes) == GetInputUtxos(decode, old(device), call)
      ensures notes.Ok? && CoveredCall(decode, old(device), call) ==>
                ListsUsable(decode, call.outputs, call.nullifiers, call.useBlocked, notes.value)
    {
      hide CoversPrefix, UsableAt, UnspentAt, GoodOutputs, CoveredCall, ListsUsable, FirstWith, Owned, DecodeOutputs, SpendableOf, IndexOfOutput;
      ghost var before := device;
      if call.resetBefore {
        device := Write(device, EMPTY_CACHE);
      }
      var cached := Read(device);
      if !call.addressBefore {
        return Err("chain or address changed");
      }
      var lastOutputIndex := IndexOfOutput(call.outputs, cached.lastOutput);
      var all := cached.outputs;
      if !call.readCacheOnly && (lastOutputIndex > -1 || cached.lastOutput == "") {
        if !call.keyAvailable {
          return Err("no key");
        }
        var owned := FilterOwnedOutputs(decode, call.outputs[lastOutputIndex + 1..], workers);
        var last := if |call.outputs| > 0 then call.outputs[|call.outputs| - 1].value else cached.lastOutput;
        all := cached.outputs + owned;
        if !call.addressDuring {
          return Err("chain or address changed");
        }
        device := Write(device, Cache(last, all));
      }
      if !call.addressAfter {
        return Err("chain or address changed");
      }
      var decoded := DecodeOutputs(decode, all);
      var spendable := FilterSpentUtxos(decoded, call.nullifiers, call.useBlocked);
      notes := Ok(spendable);
      CoveredCallLists(decode, before, call);
    }
  }

  /** On a cache that covers part of the list. */
  ghost predicate CoveredCall(decode: Decoder, device: Device, call: Call) {
    !call.readCacheOnly && GoodOutputs(call.outputs) && exists k :: CoversPrefix(decode, Read(device), call.outputs, k)
  }

  lemma CoveredCallLists(decode: Decoder, device: Device, call: Call)
    ensures CoveredCall(decode, device, call) && GetInputUtxos(decode, device, call).1.Ok? ==>
              ListsUsable(decode, call.outputs, call.nullifiers, call.useBlocked, GetInputUtxos(decode, device, call).1.value)
  {
    hide CoversPrefix, GetInputUtxos, Rescan, GoodOutputs;
    if CoveredCall(decode, device, call) && GetInputUtxos(decode, device, call).1.Ok? {
      var k :| CoversPrefix(decode, Read(device), call.outputs, k);
      var _ := CallAnswersRescan(decode, device, call, k);
      var at := RescanLists(decode, call.outputs, call.nullifiers, call.useBlocked);
    }
  }

  /** Drops notes without a nullifier, spent notes, notes of the other kind and notes at the identity point. */
  method FilterSpentUtxos(notes: seq<Note>, nullifiers: set<string>, useBlocked: bool) returns (out: seq<Note>)
    ensures out == SpendableOf(notes, nullifiers, useBlocked)
    ensures exists at :: UnspentAt(notes, nullifiers, useBlocked, out, at)
  {
    hide UnspentAt;
    out := [];
    for i := 0 to |notes|
      invariant out == SpendableOf(notes[..i], nullifiers, useBlocked)
    {
      assert notes[..i + 1][..i] == notes[..i];
      if Spendable(notes[i], nullifiers, useBlocked) {
        out := out + [notes[i]];
      }
    }
    assert notes[..|notes|] == notes;
    ghost var at := SpendableAt(notes, nullifiers, useBlocked);
  }

  /** Flags each output, in chunks when there are many, and gathers the flagged ones in order. */
  method FilterOwnedOutputs(decode: Decoder, outputs: seq<EncryptedOutput>, numCpu: nat) returns (owned: seq<EncryptedOutput>)
    requires numCpu > 0
    ensures owned == Owned(decode, outputs)
  {
    hide Owned;
    var flags := new bool[|outputs|](_ => false);
    if |outputs| < PARALLEL_DECRYPT_THRESHOLD {
      FlagRange(decode, outputs, flags, 0, |outputs|);
    } else {
      var workers := WorkerCount(|outputs|, numCpu);
      var chunk := ChunkSize(|outputs|, numCpu);
      ChunksCover(|outputs|, workers, chunk);
      var w := 0;
      while w < workers && w * chunk < |outputs|
        invariant w <= workers
        invariant forall i :: 0 <= i < |outputs| && i < w * chunk ==> flags[i] == decode(outputs[i]).Some?
        invariant forall i :: 0 <= i < |outputs| && i >= w * chunk ==> !flags[i]
      {
        var start := w * chunk;
        var end := if start + chunk > |outputs| then |outputs| else start + chunk;
        ChunkEnd(w, chunk);
        FlagRange(decode, outputs, flags, start, end);
        w := w + 1;
      }
    }
    owned := Flagged(decode, outputs, flags);
  }

  /** The flagged outputs, in order. */
  method Flagged(decode: Decoder, outputs: seq<EncryptedOutput>, flags: array<bool>) returns (owned: seq<EncryptedOutput>)
    requires flags.Length == |outputs| && forall i :: 0 <= i < |outputs| ==> flags[i] == decode(outputs[i]).Some?
    ensures owned == Owned(decode, outputs)
  {
    owned := [];
    for i := 0 to |outputs|
      invariant owned == Owned(decode, outputs[..i])
    {
      assert outputs[..i + 1][..i] == outputs[..i];
      if flags[i] {
        owned := owned + [outputs[i]];
      }
    }
    assert outputs[..|outputs|] == outputs;
  }

  /** One worker: writes the flags of its own range and no other. */
  method FlagRange(decode: Decoder, outputs: seq<EncryptedOutput>, flags: array<bool>, start: nat, end: nat)
    requires start <= end <= |outputs| == flags.Length
    requires forall i :: start <= i < end ==> !flags[i]
    modifies flags
    ensures forall i :: start <= i < end ==> flags[i] == decode(outputs[i]).Some?
    ensures forall i :: 0 <= i < flags.Length && !(start <= i < end) ==> flags[i] == old(flags[i])
  {
    for i := start to end
      invariant forall k :: start <= k < i ==> flags[k] == decode(outputs[k]).Some?
      invariant forall k :: i <= k < end ==> !flags[k]
      invariant forall k :: 0 <= k < flags.Length && !(start <= k < end) ==> flags[k] == old(flags[k])
    {
      if decode(outputs[i]).Some? {
        flags[i] := true;
      }
    }
  }

  // --- The workers of one call, interleaved.

  /** The flags, and the next output of each worker. */
  datatype Workers = Workers(flags: seq<bool>, next: seq<nat>)

  function ChunkStart(w: nat, chunk: nat): nat {
    w * chunk
  }

  function ChunkStop(w: nat, chunk: nat, n: nat): nat {
    if ChunkStart(w + 1, chunk) > n then n else ChunkStart(w + 1, chunk)
  }

  function WorkersStart(n: nat, workers: nat, chunk: nat): Workers {
    Workers(seq(n, i => false), seq(workers, w requires 0 <= w < workers => ChunkStart(w, chunk)))
  }

  /** One worker looks at its next output, if it has one left. */
  function Look(decode: Decoder, outputs: seq<EncryptedOutput>, chunk: nat, s: Workers, w: nat): Workers
    requires w < |s.next| && |s.flags| == |outputs|
  {
    var i := s.next[w];
    if i >= ChunkStop(w, chunk, |outputs|) then s
    else Workers(if decode(outputs[i]).Some? then s.flags[i := true] else s.flags, s.next[w := i + 1])
  }

  function LookAll(decode: Decoder, outputs: seq<EncryptedOutput>, chunk: nat, s: Workers, schedule: seq<nat>): Workers
    requires |s.flags| == |outputs| && forall k :: 0 <= k < |schedule| ==> schedule[k] < |s.next|
    ensures |LookAll(decode, outputs, chunk, s, schedule).flags| == |outputs| && |LookAll(decode, outputs, chunk, s, schedule).next| == |s.next|
    decreases |schedule|
  {
    if schedule == [] then s
    else Look(decode, outputs, chunk, LookAll(decode, outputs, chunk, s, schedule[..|schedule| - 1]), schedule[|schedule| - 1])
  }

  /** Output i of worker w's chunk is flagged if the worker has passed it and it decodes. */
  predicate FlaggedSoFar(decode: Decoder, outputs: seq<EncryptedOutput>, s: Workers, w: nat, i: nat)
    requires w < |s.next| && i < |s.flags| == |outputs|
  {
    s.flags[i] == (i < s.next[w] && decode(outputs[i]).Some?)
  }

  ghost predicate LookedAt(decode: Decoder, outputs: seq<EncryptedOutput>, chunk: nat, s: Workers) {
    && |s.flags| == |outputs|
    && (forall w :: 0 <= w < |s.next| ==> s.next[w] >= ChunkStart(w, chunk))
    && (forall w, i :: 0 <= w < |s.next| && ChunkStart(w, chunk) <= i < ChunkStop(w, chunk, |outputs|) ==> FlaggedSoFar(decode, outputs, s, w, i))
  }

  lemma ChunksApart(v: nat, w: nat, chunk: nat, i: nat)
    requires ChunkStart(v, chunk) <= i < ChunkStart(v + 1, chunk) && ChunkStart(w, chunk) <= i < ChunkStart(w + 1, chunk)
    ensures v == w
  {
    if v < w { ChunksOrdered(v + 1, w, chunk); }
    if w < v { ChunksOrdered(w + 1, v, chunk); }
  }

  lemma ChunksOrdered(v: nat, w: nat, chunk: nat)
    requires v <= w
    ensures ChunkStart(v, chunk) <= ChunkStart(w, chunk)
  {
    assert (w - v) * chunk >= 0;
    assert w * chunk == v * chunk + (w - v) * chunk;
  }

  lemma LookKeeps(decode: Decoder, outputs: seq<EncryptedOutput>, chunk: nat, s: Workers, w: nat)
    requires LookedAt(decode, outputs, chunk, s) && w < |s.next|
    ensures LookedAt(decode, outputs, chunk, Look(decode, outputs, chunk, s, w))
  {
    hide ChunkStart;
    var s', i := Look(decode, outputs, chunk, s, w), s.next[w];
    forall v, j | 0 <= v < |s.next| && ChunkStart(v, chunk) <= j < ChunkStop(v, chunk, |outputs|) ensures FlaggedSoFar(decode, outputs, s', v, j) {
      assert FlaggedSoFar(decode, outputs, s, v, j);
      if i < ChunkStop(w, chunk, |outputs|) && j == i { ChunksApart(v, w, chunk, i); }
    }
  }

  lemma {:induction false} ScheduleKeeps(decode: Decoder, outputs: seq<EncryptedOutput>, chunk: nat, s: Workers, schedule: seq<nat>)
    requires |s.flags| == |outputs| && LookedAt(decode, outputs, chunk, s)
    requires forall k :: 0 <= k < |schedule| ==> schedule[k] < |s.next|
    ensures LookedAt(decode, outputs, chunk, LookAll(decode, outputs, chunk, s, schedule))
    decreases |schedule|
  {
    hide LookedAt, Look;
    if schedule != [] {
      ScheduleKeeps(decode, outputs, chunk, s, schedule[..|schedule| - 1]);
      LookKeeps(decode, outputs, chunk, LookAll(decode, outputs, chunk, s, schedule[..|schedule| - 1]), schedule[|schedule| - 1]);
    }
  }

  function WorkerCount(n: nat, numCpu: nat): nat {
    if numCpu > n then n else numCpu
  }

  function ChunkSize(n: nat, numCpu: nat): nat
    requires n > 0 && numCpu > 0
  {
    (n + WorkerCount(n, numCpu) - 1) / WorkerCount(n, numCpu)
  }

  /** However the workers interleave, once each has passed its chunk the flags are those of one sequential pass. */
  lemma AnyInterleavingFlagsAll(decode: Decoder, outputs: seq<EncryptedOutput>, numCpu: nat, schedule: seq<nat>)
    requires numCpu > 0 && outputs != []
    requires forall k :: 0 <= k < |schedule| ==> schedule[k] < WorkerCount(|outputs|, numCpu)
    requires var workers, chunk := WorkerCount(|outputs|, numCpu), ChunkSize(|outputs|, numCpu);
             var s := LookAll(decode, outputs, chunk, WorkersStart(|outputs|, workers, chunk), schedule);
             forall w :: 0 <= w < workers ==> s.next[w] >= ChunkStop(w, chunk, |outputs|)
    ensures var workers, chunk := WorkerCount(|outputs|, numCpu), ChunkSize(|outputs|, numCpu);
            var s := LookAll(decode, outputs, chunk, WorkersStart(|outputs|, workers, chunk), schedule);
            forall i :: 0 <= i < |outputs| ==> s.flags[i] == decode(outputs[i]).Some?
  {
    hide ChunkStart, Look, LookAll, LookedAt, ChunkSize;
    var workers, chunk := WorkerCount(|outputs|, numCpu), ChunkSize(|outputs|, numCpu);
    ChunksSuffice(|outputs|, numCpu);
    StartLookedAt(decode, outputs, workers, chunk);
    ScheduleKeeps(decode, outputs, chunk, WorkersStart(|outputs|, workers, chunk), schedule);
    AllLookedAt(decode, outputs, workers, chunk, LookAll(decode, outputs, chunk, WorkersStart(|outputs|, workers, chunk), schedule));
  }

  lemma ChunksSuffice(n: nat, numCpu: nat)
    requires n > 0 && numCpu > 0
    ensures ChunkStart(WorkerCount(n, numCpu), ChunkSize(n, numCpu)) >= n
  {
    ChunksCover(n, WorkerCount(n, numCpu), ChunkSize(n, numCpu));
  }

  lemma StartLookedAt(decode: Decoder, outputs: seq<EncryptedOutput>, workers: nat, chunk: nat)
    ensures LookedAt(decode, outputs, chunk, WorkersStart(|outputs|, workers, chunk))
  {
    hide ChunkStart;
  }

  lemma AllLookedAt(decode: Decoder, outputs: seq<EncryptedOutput>, workers: nat, chunk: nat, s: Workers)
    requires LookedAt(decode, outputs, chunk, s) && |s.next| == workers && ChunkStart(workers, chunk) >= |outputs|
    requires forall w :: 0 <= w < workers ==> s.next[w] >= ChunkStop(w, chunk, |outputs|)
    ensures forall i :: 0 <= i < |outputs| ==> s.flags[i] == decode(outputs[i]).Some?
  {
    hide ChunkStart;
    forall i | 0 <= i < |outputs| ensures s.flags[i] == decode(outputs[i]).Some? {
      var w := ChunkOf(i, workers, chunk);
      assert FlaggedSoFar(decode, outputs, s, w, i);
    }
  }

  lemma {:induction false} ChunkOf(i: nat, workers: nat, chunk: nat) returns (w: nat)
    requires i < ChunkStart(workers, chunk)
    ensures w < workers && ChunkStart(w, chunk) <= i < ChunkStart(w + 1, chunk)
    decreases workers
  {
    if workers > 0 && ChunkStart(workers - 1, chunk) <= i { w := workers - 1; } else { w := ChunkOf(i, workers - 1, chunk); }
  }

  lemma ChunkEnd(w: nat, chunk: nat)
    ensures w * chunk >= 0 && (w + 1) * chunk == w * chunk + chunk
  {
  }

  lemma ChunksCover(n: nat, workers: nat, chunk: nat)
    requires workers > 0 && chunk == (n + workers - 1) / workers
    ensures workers * chunk >= n && ChunkStart(workers, chunk) >= n
  {
    assert n + workers - 1 == workers * chunk + (n + workers - 1) % workers;
  }
}
