/**
 Withdrawing notes that got stuck: the enclave picks the notes and answers with several jobs. Each job must empty
 its notes into a withdrawal that covers the fee, and no note may be spent twice in the whole answer.
 */
module StuckWithdraw {
  import opened Wrappers
  import opened Numbers
  import opened Enclave
  import opened EnclaveAmounts
  import opened PrepareTx
  import opened SignedBalance
  import opened SignCheck
  import opened HonestExchange
  import opened Field

  datatype Request = Request(token: string, flatFee: int, nullifyingKey: string, spendingKey: (string, string))

  /** A job is checked like a prepared transaction of one token without recipients, whose change is the job's own. */
  function JobPayload(q: Request, change: int): Payload {
    Payload([q.token], [Numbers.Text(change, 10)], None, None, false, None, [], [], q.nullifyingKey, q.spendingKey)
  }

  function JobNullifiers(c: Crypto, q: Request, job: Response): seq<string> {
    var ins := InSlots(c, JobPayload(q, 0), job);
    if ins.Some? && |ins.value| > 0 then NullifierRow(ins.value[0]) else []
  }

  function JobTotal(job: Response): Option<int>
    requires |job.inAmounts| > 0
  {
    TextSum(job.inAmounts[0], |job.inAmounts[0]|)
  }

  /** Everything checked of a job apart from notes spent before. */
  predicate JobSound(c: Crypto, q: Request, job: Response) {
    var ins, outs := InSlots(c, JobPayload(q, 0), job), OutSlots(c, JobPayload(q, 0), job);
    && ins.Some? && outs.Some?
    && JobTotal(job).Some? && JobTotal(job).value > q.flatFee
    && var p := JobPayload(q, -JobTotal(job).value);
       && AmountsConserve(p, job)
       && var hashed := Recomputed(p, ins.value, outs.value);
          && hashed.Some?
          && c.signedHash(p, Unsigned(job), hashed.value).Some?
          && ParseBigInt(job.signedMessageHash) == c.signedHash(p, Unsigned(job), hashed.value)
  }

  /** No non-zero nullifier of the row is in the set or earlier in the row. */
  predicate NotRepeated(row: seq<string>, seen: set<string>) {
    forall i :: 0 <= i < |row| && row[i] != "0" ==> row[i] !in seen && row[i] !in row[..i]
  }

  function NonZero(row: seq<string>): set<string> {
    set x | x in row && x != "0"
  }

  // --- What an accepted job vouches for.

  /** The caller, under the keys of the request. */
  predicate JobCaller(q: Request, me: NoteOwner) {
    && me.Own? && me.nullifyingKey == q.nullifyingKey
    && ParseBigInt(q.spendingKey.0) == Some(me.spendingKey.0) && ParseBigInt(q.spendingKey.1) == Some(me.spendingKey.1)
  }

  /** The nullifier of a slot of the job, made of the caller's keys, the token asked for and the slot's texts; a zero for an empty slot. */
  predicate JobEntry(c: Crypto, q: Request, me: NoteOwner, job: Response, i: nat, entry: string) {
    && SameLengths(job, 1) && JobCaller(q, me) && i < |job.inAmounts[0]|
    && IsNullifierEntry(c, entry, me, q.token, job.inAmounts[0][i], job.inH0Ax[0][i], job.inH0Ay[0][i], job.inTimeStamps[0][i])
  }

  predicate JobEntries(c: Crypto, q: Request, me: NoteOwner, job: Response, row: seq<string>) {
    && SameLengths(job, 1) && |row| == |job.inAmounts[0]|
    && forall i :: 0 <= i < |row| ==> JobEntry(c, q, me, job, i, row[i])
  }

  /**
   The answered hash is that of the job's nullifiers, of no created note and of one change: the whole value of the notes,
   which is more than the fee, taken away. Every opening of it balances against that change or collides.
   */
  ghost predicate JobVouched(c: Crypto, q: Request, job: Response, total: int, hashed: Hashed) {
    var p := Payload([q.token], [Numbers.Text(-total, 10)], None, None, false, None, [], [], q.nullifyingKey, q.spendingKey);
    && total > q.flatFee && AnswersHash(c, p, job, hashed)
    && (exists me, row :: JobEntries(c, q, me, job, row) && FlatNumbers([row], hashed.nullifiers))
    && hashed.commitments == [0] && hashed.amountChanges == [(if total > 0 then FIELD_P else 0) - total]
    && ChangesParse(p) && SignedChange(p, 0) == Some(-total) && EveryOpeningBalances(c, p, job, hashed)
  }

  ghost predicate IsVouched(c: Crypto, q: Request, job: Response) {
    exists total, hashed :: JobVouched(c, q, job, total, hashed)
  }

  class SpentNullifiers {
    var seen: set<string>

    constructor ()
      ensures seen == {}
    {
      seen := {};
    }

    method VerifyNoRepeatedStuckNotes(row: seq<string>) returns (ok: bool)
      modifies this
      ensures ok <==> NotRepeated(row, old(seen))
      ensures ok ==> seen == old(seen) + NonZero(row)
    {
      for i := 0 to |row|
        invariant seen == old(seen) + NonZero(row[..i])
        invariant forall k :: 0 <= k < i && row[k] != "0" ==> row[k] !in old(seen) && row[k] !in row[..k]
      {
        assert row[..i + 1] == row[..i] + [row[i]];
        if row[i] == "0" {
          continue;
        }
        if row[i] in seen {
          return false;
        }
        seen := seen + {row[i]};
      }
      assert row[..|row|] == row;
      ok := true;
    }

    method VerifyStuckWithdrawJob(c: Crypto, q: Request, job: Response) returns (ok: bool)
      modifies this
      ensures ok <==> JobSound(c, q, job) && NotRepeated(JobNullifiers(c, q, job), old(seen))
      ensures ok ==> seen == old(seen) + NonZero(JobNullifiers(c, q, job))
      ensures ok ==> IsVouched(c, q, job)
    {
      hide ParseBigInt, ReadIns, OutRows, TextSum, ParseAll, Flatten, NotRepeated, NonZero, AmountsConserve, SignedChange, Numbers.Text, RecipientSum;
      var p0 := JobPayload(q, 0);
      var inNullifiers := VerifyComputeInNullifiers(c, p0, job, None);
      if inNullifiers.None? {
        return false;
      }
      ok := VerifyNoRepeatedStuckNotes(inNullifiers.value[0]);
      if !ok {
        return false;
      }
      var outCommitments := VerifyComputeOutCommitments(c, p0, job);
      if outCommitments.None? {
        return false;
      }
      var inputTotal := SumTexts(job.inAmounts[0], |job.inAmounts[0]|);
      if inputTotal.None? || inputTotal.value <= q.flatFee {
        return false;
      }
      var p := JobPayload(q, -inputTotal.value);
      ok := VerifyAssertAmountsConserve(p, job);
      if !ok {
        return false;
      }
      var nullifiers := FlatToBigInts(inNullifiers.value);
      var commitments := FlatToBigInts(outCommitments.value);
      if nullifiers.None? || commitments.None? {
        return false;
      }
      JobChange(q, -inputTotal.value);
      var hashed := Hashed(nullifiers.value, commitments.value, [Wrap(-inputTotal.value)]);
      assert WrappedChanges(p) == hashed.amountChanges;
      var recomputed, expected := c.signedHash(p, Unsigned(job), hashed), ParseBigInt(job.signedMessageHash);
      if recomputed.None? || expected.None? || recomputed != expected {
        return false;
      }
      SoundIsVouched(c, q, job);
      ok := true;
    }
  }

  /** The input slots do not depend on the change. */
  lemma SameInSlots(c: Crypto, q: Request, job: Response, change: int)
    ensures InSlots(c, JobPayload(q, change), job) == InSlots(c, JobPayload(q, 0), job)
  {
    hide ReadIns, ParseBigInt, Numbers.Text;
  }

  lemma SoundIsChecked(c: Crypto, q: Request, job: Response)
    requires JobSound(c, q, job)
    ensures Checked(c, JobPayload(q, -JobTotal(job).value), job)
  {
    hide ReadIns, OutSlots, AmountsConserve, ParseBigInt, Recomputed, Numbers.Text, TextSum;
    SameInSlots(c, q, job, -JobTotal(job).value);
    SameOutSlots(c, q, job, -JobTotal(job).value);
  }

  lemma JobEntriesHold(c: Crypto, q: Request, job: Response)
    requires InSlots(c, JobPayload(q, 0), job).Some?
    ensures exists me :: JobEntries(c, q, me, job, JobNullifiers(c, q, job))
  {
    hide ReadIns, IsNullifierEntry, ParseBigInt;
    var p, rows := JobPayload(q, 0), NullifierRows(InSlots(c, JobPayload(q, 0), job).value);
    EntriesHold(c, p, job);
    var me :| NullifierEntries(c, p, me, job, rows);
    assert rows[0] == JobNullifiers(c, q, job);
    forall i | 0 <= i < |rows[0]| ensures JobEntry(c, q, me, job, i, rows[0][i]) {
      assert IsNullifierEntry(c, rows[0][i], me, p.tokens[0], job.inAmounts[0][i], job.inH0Ax[0][i], job.inH0Ay[0][i], job.inTimeStamps[0][i]);
    }
    assert JobEntries(c, q, me, job, rows[0]);
  }

  lemma OneNumber(text: string, n: int)
    requires ParseBigInt(text) == Some(n)
    ensures ParseAll(Flatten([[text]])) == Some([n])
  {
    hide ParseBigInt;
    var rows, row := [[text]], [text];
    assert rows[..0] == [] && Flatten(rows) == [] + row == row;
    assert row[..0] == [];
    assert ParseAll(row[..0]) == Some([]);
    assert ParseAll(row) == Some([] + [n]);
    assert [] + [n] == [n];
  }

  lemma SoundIsVouched(c: Crypto, q: Request, job: Response)
    requires JobSound(c, q, job)
    ensures IsVouched(c, q, job)
  {
    hide ReadIns, OutSlots, AmountsConserve, ParseBigInt, Numbers.Text, TextSum, ParseAll, Flatten, NullifierRow, JobNullifiers, JobEntries,
         EveryOpeningBalances, FlatNumbers, SignedChange, TotalIn;
    var total := JobTotal(job).value;
    var p := JobPayload(q, -total);
    SoundIsChecked(c, q, job);
    SameInSlots(c, q, job, -total);
    SameOutSlots(c, q, job, -total);
    JobEmptiesItsNotes(c, q, job);
    JobChange(q, -total);
    var ins: seq<seq<Slot>>, outs: seq<seq<OutSlot>> := InSlots(c, p, job).value, OutSlots(c, p, job).value;
    var hashed := Recomputed(p, ins, outs).value;
    OpeningsBalance(c, p, job, hashed);
    JobEntriesHold(c, q, job);
    var me :| JobEntries(c, q, me, job, JobNullifiers(c, q, job));
    assert NullifierRows(ins) == [JobNullifiers(c, q, job)] by { JobRow(c, q, job); }
    FlatNumbersHold(NullifierRows(ins));
    assert CommitmentRows(outs) == [["0"]] by { assert CommitmentRow([Nothing]) == ["0"]; }
    ZeroText();
    OneNumber("0", 0);
    assert JobVouched(c, q, job, total, hashed);
  }

  lemma JobRow(c: Crypto, q: Request, job: Response)
    requires InSlots(c, JobPayload(q, 0), job).Some? && |InSlots(c, JobPayload(q, 0), job).value| == 1
    ensures NullifierRows(InSlots(c, JobPayload(q, 0), job).value) == [JobNullifiers(c, q, job)]
  {
    hide InSlots;
  }

  lemma JobChange(q: Request, change: int)
    ensures ParseBigInt(JobPayload(q, change).amountChanges[0]) == Some(change)
    ensures SignedChange(JobPayload(q, change), 0) == Some(change)
  {
    hide ParseBigInt, Numbers.Text;
    DecimalRoundTrip(change);
  }

  // --- A job by itself.

  /** A sound job spends notes worth more than the fee, creates no note, and signs away their whole value. */
  lemma JobEmptiesItsNotes(c: Crypto, q: Request, job: Response)
    requires JobSound(c, q, job)
    ensures var p := JobPayload(q, -JobTotal(job).value);
            var ins, outs := InSlots(c, p, job), OutSlots(c, p, job);
            && ins.Some? && |ins.value| == 1 && TotalIn(ins.value[0]) == JobTotal(job).value > q.flatFee
            && outs == Some([[Nothing]])
            && Recomputed(p, ins.value, outs.value).Some?
            && Recomputed(p, ins.value, outs.value).value.amountChanges == [Wrap(-TotalIn(ins.value[0]))]
  {
    hide ParseBigInt, ParseAll, Flatten, Numbers.Text, ReadRow, OutRow, TextSum, TotalIn, AmountsConserve, SignedChange;
    var total := JobTotal(job).value;
    var p := JobPayload(q, -total);
    var me := OwnerOf(p).value;
    SameOutSlots(c, q, job, -total);
    InRowAt(c, me, p.tokens, job, 1, 0);
    OutRowAt(c, me, p, job, 1, 0);
    TotalInIsText(c, me, q.token, job.inAmounts[0], job.inH0Ax[0], job.inH0Ay[0], job.inTimeStamps[0], |job.inAmounts[0]|);
    JobChange(q, -total);
    NoSelfOutput(c, q, me, job, -total);
    assert WrappedChanges(p) == [Wrap(-total)];
    assert OutSlots(c, p, job).value == [[Nothing]];
    SameInSlots(c, q, job, -total);
  }

  lemma NoSelfOutput(c: Crypto, q: Request, me: NoteOwner, job: Response, change: int)
    requires OutShape(JobPayload(q, change), job) && OutRowShape(JobPayload(q, change), job, 0)
    requires OutRow(c, me, JobPayload(q, change), job, 0, 1).Some?
    requires |job.inAmounts| > 0 && JobTotal(job) == Some(-change) && AmountsConserve(JobPayload(q, change), job)
    ensures OutRow(c, me, JobPayload(q, change), job, 0, 1) == Some([Nothing])
  {
    hide ParseBigInt, Numbers.Text;
    var p := JobPayload(q, change);
    JobChange(q, change);
    assert Balanced(job.inAmounts[0], job.outAmounts[0], 1, p.amountChanges[0]);
    OneText(job.outAmounts[0]);
    assert ParseBigInt(job.outAmounts[0][0]) == Some(0);
    OneSlot(c, me, p, job);
  }

  lemma OneSlot(c: Crypto, me: NoteOwner, p: Payload, job: Response)
    requires OutShape(p, job) && |p.tokens| == 1 && OutRowShape(p, job, 0) && SelfSlots(p) == 1
    ensures OutRow(c, me, p, job, 0, 1) ==
            var slot := ReadOut(c, me, p.tokens[0], job.outAmounts[0][0], job.outH0Ax[0][0], job.outH0Ay[0][0], job.outTimeStamp);
            if slot.None? then None else Some([slot.value])
  {
    hide ReadOut;
    assert OutRow(c, me, p, job, 0, 0) == Some([]);
    var slot := OutSlotAt(c, me, p, job, 0, 0);
    if slot.Some? { assert [] + [slot.value] == [slot.value]; }
  }

  /** The output slots do not depend on the change. */
  lemma SameOutSlots(c: Crypto, q: Request, job: Response, change: int)
    ensures OutSlots(c, JobPayload(q, change), job) == OutSlots(c, JobPayload(q, 0), job)
  {
    hide ParseBigInt, Numbers.Text, ReadOut, OutRow;
    var p, p0 := JobPayload(q, change), JobPayload(q, 0);
    if OutShape(p, job) && OwnerOf(p).Some? && OutRowShape(p, job, 0) {
      var me := OwnerOf(p).value;
      OneSlot(c, me, p, job);
      OneSlot(c, me, p0, job);
      assert OutRows(c, me, p, job, 0) == OutRows(c, me, p0, job, 0);
    }
  }

  lemma OneText(texts: seq<string>)
    requires |texts| > 0
    ensures TextSum(texts, 1) == ParseBigInt(texts[0])
  {
    hide ParseBigInt;
    assert TextSum(texts, 0) == Some(0);
  }

  // --- All jobs of an answer.

  /** The nullifiers of all jobs, in order. */
  function AllNullifiers(c: Crypto, q: Request, jobs: seq<Response>): seq<string> {
    if jobs == [] then [] else AllNullifiers(c, q, jobs[..|jobs| - 1]) + JobNullifiers(c, q, jobs[|jobs| - 1])
  }

  lemma NotRepeatedJoins(a: seq<string>, b: seq<string>)
    ensures NotRepeated(a + b, {}) <==> NotRepeated(a, {}) && NotRepeated(b, NonZero(a))
    ensures NonZero(a + b) == NonZero(a) + NonZero(b)
  {
    var all := a + b;
    forall i | 0 <= i < |a| ensures all[..i] == a[..i] {}
    forall i | 0 <= i < |b| ensures all[|a| + i] == b[i] && all[..|a| + i] == a + b[..i] {}
    if NotRepeated(all, {}) {
      forall i | 0 <= i < |a| && a[i] != "0" ensures a[i] !in a[..i] { assert all[i] == a[i]; }
      forall i | 0 <= i < |b| && b[i] != "0" ensures b[i] !in NonZero(a) && b[i] !in b[..i] { assert all[|a| + i] == b[i]; }
    }
    if NotRepeated(a, {}) && NotRepeated(b, NonZero(a)) {
      forall i | 0 <= i < |all| && all[i] != "0" ensures all[i] !in all[..i] {
        if i >= |a| { assert b[i - |a|] == all[i]; }
      }
    }
  }

  lemma {:induction false} AllNullifiersPrefix(c: Crypto, q: Request, jobs: seq<Response>, j: nat)
    requires j <= |jobs| && !NotRepeated(AllNullifiers(c, q, jobs[..j]), {})
    ensures !NotRepeated(AllNullifiers(c, q, jobs), {})
    decreases |jobs|
  {
    hide NotRepeated, JobNullifiers;
    if j == |jobs| {
      assert jobs[..j] == jobs;
    } else {
      var n := |jobs| - 1;
      assert jobs[..n][..j] == jobs[..j];
      AllNullifiersPrefix(c, q, jobs[..n], j);
      NotRepeatedJoins(AllNullifiers(c, q, jobs[..n]), JobNullifiers(c, q, jobs[n]));
    }
  }

  /** A note spent in a slot of a job, by its nullifier. */
  ghost predicate Spends(c: Crypto, q: Request, jobs: seq<Response>, j: nat, i: nat, nullifier: string) {
    nullifier != "0" && j < |jobs| && exists me :: JobEntry(c, q, me, jobs[j], i, nullifier)
  }

  /** No note is spent in two slots, of one job or of different ones. */
  ghost predicate NoNoteTwice(c: Crypto, q: Request, jobs: seq<Response>) {
    forall j: nat, i: nat, k: nat, l: nat, nullifier ::
      Spends(c, q, jobs, j, i, nullifier) && Spends(c, q, jobs, k, l, nullifier) ==> j == k && i == l
  }

  function JobRows(c: Crypto, q: Request, jobs: seq<Response>): seq<seq<string>> {
    seq(|jobs|, j requires 0 <= j < |jobs| => JobNullifiers(c, q, jobs[j]))
  }

  lemma {:induction false} AllIsFlat(c: Crypto, q: Request, jobs: seq<Response>)
    ensures AllNullifiers(c, q, jobs) == Flatten(JobRows(c, q, jobs))
    decreases |jobs|
  {
    hide JobNullifiers;
    if jobs != [] {
      var n := |jobs| - 1;
      AllIsFlat(c, q, jobs[..n]);
      assert JobRows(c, q, jobs)[..n] == JobRows(c, q, jobs[..n]);
    }
  }

  lemma JobEntryIsNullifier(c: Crypto, q: Request, me: NoteOwner, job: Response, i: nat, entry: string)
    requires JobSound(c, q, job)
    ensures i < |JobNullifiers(c, q, job)| && JobNullifiers(c, q, job)[i] == entry <== JobEntry(c, q, me, job, i, entry)
    ensures |JobNullifiers(c, q, job)| > i && JobNullifiers(c, q, job)[i] == entry ==> exists me :: JobEntry(c, q, me, job, i, entry)
  {
    hide ReadIns, IsNullifierEntry, ParseBigInt, JobNullifiers, AmountsConserve, Recomputed, TextSum, OutSlots;
    JobEntriesHold(c, q, job);
    var other :| JobEntries(c, q, other, job, JobNullifiers(c, q, job));
    if JobEntry(c, q, me, job, i, entry) {
      assert JobEntry(c, q, other, job, i, JobNullifiers(c, q, job)[i]);
      OneEntry(c, q, me, other, job, i, entry, JobNullifiers(c, q, job)[i]);
    }
  }

  lemma OneEntry(c: Crypto, q: Request, me: NoteOwner, other: NoteOwner, job: Response, i: nat, a: string, b: string)
    requires JobEntry(c, q, me, job, i, a) && JobEntry(c, q, other, job, i, b)
    ensures a == b
  {
    hide ParseBigInt;
  }

  lemma {:induction false} OffsetsIncrease<T>(rows: seq<seq<T>>, j: nat, k: nat)
    requires j < k <= |rows|
    ensures Offset(rows, j) + |rows[j]| <= Offset(rows, k)
    decreases k - j
  {
    if j < k - 1 { OffsetsIncrease(rows, j, k - 1); }
  }

  /** In rows of texts no text but the zero stands twice. */
  predicate NoneTwice(rows: seq<seq<string>>) {
    forall j, i, k, l :: 0 <= j < |rows| && 0 <= i < |rows[j]| && 0 <= k < |rows| && 0 <= l < |rows[k]| && rows[j][i] == rows[k][l] != "0" ==>
      j == k && i == l
  }

  lemma FlatRepetition(rows: seq<seq<string>>)
    ensures NotRepeated(Flatten(rows), {}) <==> NoneTwice(rows)
  {
    hide Flatten, Offset;
    var flat := Flatten(rows);
    if NoneTwice(rows) {
      forall m | 0 <= m < |flat| && flat[m] != "0" ensures flat[m] !in flat[..m] {
        if flat[m] in flat[..m] {
          var n :| 0 <= n < m && flat[n] == flat[m];
          FlattenLength(rows);
          var j, i := FlattenFromOffset(rows, n);
          var k, l := FlattenFromOffset(rows, m);
          FlattenAt(rows, j, i);
          FlattenAt(rows, k, l);
        }
      }
    }
    if NotRepeated(flat, {}) {
      forall j, i, k, l | 0 <= j < |rows| && 0 <= i < |rows[j]| && 0 <= k < |rows| && 0 <= l < |rows[k]| && rows[j][i] == rows[k][l] != "0"
        ensures j == k && i == l
      {
        FlattenAt(rows, j, i);
        FlattenAt(rows, k, l);
        OnlyOnce(flat, Offset(rows, j) + i, Offset(rows, k) + l);
        if j < k { OffsetsIncrease(rows, j, k); }
        if k < j { OffsetsIncrease(rows, k, j); }
      }
    }
  }

  lemma OnlyOnce(texts: seq<string>, m: nat, n: nat)
    requires NotRepeated(texts, {}) && m < |texts| && n < |texts| && texts[m] == texts[n] != "0"
    ensures m == n
  {
    hide NotRepeated;
    if m < n { TwiceRepeats(texts, m, n); }
    if n < m { TwiceRepeats(texts, n, m); }
  }

  lemma TwiceRepeats(texts: seq<string>, m: nat, n: nat)
    requires m < n < |texts| && texts[m] == texts[n] != "0"
    ensures !NotRepeated(texts, {})
  {
    assert texts[..n][m] == texts[n];
  }

  /** The nullifiers of sound jobs repeat exactly when a note is spent in two slots. */
  lemma RepeatedIffSpentTwice(c: Crypto, q: Request, jobs: seq<Response>)
    requires forall j :: 0 <= j < |jobs| ==> JobSound(c, q, jobs[j])
    ensures NotRepeated(AllNullifiers(c, q, jobs), {}) <==> NoNoteTwice(c, q, jobs)
  {
    hide JobSound, NotRepeated, JobNullifiers, Flatten, AllNullifiers, JobEntry;
    var rows := JobRows(c, q, jobs);
    AllIsFlat(c, q, jobs);
    FlatRepetition(rows);
    forall j: nat, i: nat, nullifier
      ensures Spends(c, q, jobs, j, i, nullifier) <==> j < |rows| && i < |rows[j]| && rows[j][i] == nullifier != "0"
    {
      SpendsIff(c, q, jobs, j, i, nullifier);
    }
    if NoNoteTwice(c, q, jobs) {
      forall j, i, k, l | 0 <= j < |rows| && 0 <= i < |rows[j]| && 0 <= k < |rows| && 0 <= l < |rows[k]| && rows[j][i] == rows[k][l] != "0"
        ensures j == k && i == l
      {
        assert Spends(c, q, jobs, j, i, rows[j][i]) && Spends(c, q, jobs, k, l, rows[j][i]);
      }
    }
  }

  lemma SpendsIff(c: Crypto, q: Request, jobs: seq<Response>, j: nat, i: nat, nullifier: string)
    requires forall j :: 0 <= j < |jobs| ==> JobSound(c, q, jobs[j])
    ensures var rows := JobRows(c, q, jobs);
            Spends(c, q, jobs, j, i, nullifier) <==> j < |rows| && i < |rows[j]| && rows[j][i] == nullifier != "0"
  {
    hide JobSound, JobNullifiers, JobEntry;
    if Spends(c, q, jobs, j, i, nullifier) {
      var me :| JobEntry(c, q, me, jobs[j], i, nullifier);
      JobEntryIsNullifier(c, q, me, jobs[j], i, nullifier);
    } else if j < |jobs| && nullifier != "0" {
      JobEntryIsNullifier(c, q, Stealth(""), jobs[j], i, nullifier);
    }
  }

  /** Accepts exactly the answers whose jobs are all sound and in which no note is spent in two slots, within or across jobs. */
  method VerifyStuckWithdrawJobs(c: Crypto, q: Request, jobs: seq<Response>) returns (ok: bool)
    ensures ok <==> (forall j :: 0 <= j < |jobs| ==> JobSound(c, q, jobs[j])) && NoNoteTwice(c, q, jobs)
    ensures ok ==> forall j :: 0 <= j < |jobs| ==> IsVouched(c, q, jobs[j])
  {
    hide JobSound, NotRepeated, JobNullifiers, NonZero, NoNoteTwice, IsVouched, AllNullifiers;
    var spent := new SpentNullifiers();
    NothingRepeated(c, q);
    for j := 0 to |jobs|
      invariant forall k :: 0 <= k < j ==> JobSound(c, q, jobs[k])
      invariant spent.seen == NonZero(AllNullifiers(c, q, jobs[..j])) && NotRepeated(AllNullifiers(c, q, jobs[..j]), {})
    {
      NextJob(c, q, jobs, j);
      ok := spent.VerifyStuckWithdrawJob(c, q, jobs[j]);
      if !ok {
        if JobSound(c, q, jobs[j]) {
          AllNullifiersPrefix(c, q, jobs, j + 1);
          if forall k :: 0 <= k < |jobs| ==> JobSound(c, q, jobs[k]) { RepeatedIffSpentTwice(c, q, jobs); }
        }
        return false;
      }
    }
    assert jobs[..|jobs|] == jobs;
    RepeatedIffSpentTwice(c, q, jobs);
    forall j | 0 <= j < |jobs| ensures IsVouched(c, q, jobs[j]) { SoundIsVouched(c, q, jobs[j]); }
    ok := true;
  }

  lemma NextJob(c: Crypto, q: Request, jobs: seq<Response>, j: nat)
    requires j < |jobs|
    ensures var seen, row := AllNullifiers(c, q, jobs[..j]), JobNullifiers(c, q, jobs[j]);
            && NotRepeated(AllNullifiers(c, q, jobs[..j + 1]), {}) == (NotRepeated(seen, {}) && NotRepeated(row, NonZero(seen)))
            && NonZero(AllNullifiers(c, q, jobs[..j + 1])) == NonZero(seen) + NonZero(row)
  {
    hide NotRepeated, JobNullifiers, NonZero;
    assert jobs[..j + 1][..j] == jobs[..j];
    NotRepeatedJoins(AllNullifiers(c, q, jobs[..j]), JobNullifiers(c, q, jobs[j]));
  }

  lemma NothingRepeated(c: Crypto, q: Request)
    ensures NotRepeated(AllNullifiers(c, q, []), {}) && NonZero(AllNullifiers(c, q, [])) == {}
  {
  }

  // --- No honest job is refused.

  /**
   Any exchange that spends notes of the token worth more than the fee, in as many slots as there are, and creates nothing is a
   sound job once the answered hash is that of its data.
   */
  lemma HonestJobIsSound(c: Crypto, q: Request, x: Exchange, hashed: Hashed)
    requires |x.spent| == 1 && x.created == [[None]] && x.given == [[]] && x.recipients == []
    requires OwnerOf(JobPayload(q, 0)).Some? && SumOf(x.spent[0]) > q.flatFee
    requires forall i :: 0 <= i < |x.spent[0]| && x.spent[0][i].Some? ==>
               SpendableNote(c, OwnerOf(JobPayload(q, 0)).value, q.token, x.spent[0][i].value)
    requires DataOf(c, x, hashed) && c.signedHash(JobPayload(q, -SumOf(x.spent[0])), Unsigned(Answer(x)), hashed) == Some(x.hash)
    ensures JobSound(c, q, Answer(x))
  {
    hide ParseBigInt, Numbers.Text, SumOf, DataOf, InsOf, OutsOf, ReadIns, OutSlots, Recomputed, AmountsConserve, TextSum, Amounts, Xs, Ys, Times;
    var total := SumOf(x.spent[0]);
    var p := JobPayload(q, -total);
    JobChange(q, -total);
    NothingCreated();
    assert Fits(c, p, x);
    HonestExchangeIsChecked(c, p, x, hashed);
    SameInSlots(c, q, Answer(x), -total);
    SameOutSlots(c, q, Answer(x), -total);
    RowLengths(x.spent[0]);
    AmountsSum(x.spent[0], |x.spent[0]|);
    assert x.spent[0][..|x.spent[0]|] == x.spent[0];
  }

  lemma NothingCreated()
    ensures SumOf([None]) == 0 && SumOf([]) == 0
  {
    var row: Row := [None];
    assert row[..0] == [];
  }
}
