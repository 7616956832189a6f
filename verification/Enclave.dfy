/**
 Checking a prepared transaction before signing it: nullifiers and commitments are recomputed from the
 caller's data, amounts must balance, the spend set must be the authorised one, and the signed hash
 must be the hash of what was recomputed.
 */
module Enclave {
  import opened Wrappers
  import opened Numbers
  import Text

  datatype NoteOwner = Own(nullifyingKey: string, spendingKey: (int, int)) | Stealth(address: string)

  datatype NoteParams = NoteParams(amount: int, token: string, owner: NoteOwner, h0: (int, int), timeStamp: string)

  datatype Payload = Payload(
    tokens: seq<string>,
    amountChanges: seq<string>,
    inputCommitments: Option<seq<string>>,
    speculative: Option<seq<seq<SpeculativeNote>>>,
    forceEmptyUtxos: bool,
    selfOutputAmounts: Option<seq<string>>,
    recipientAddress: seq<string>,
    recipientAmounts: seq<seq<string>>,
    nullifyingKey: string,
    spendingKey: (string, string))

  datatype SpeculativeNote = SpeculativeNote(amount: string, token: string, stealthAddress: string, h0: (string, string), timeStamp: string)

  datatype Response = Response(
    inAmounts: seq<seq<string>>, inH0Ax: seq<seq<string>>, inH0Ay: seq<seq<string>>, inTimeStamps: seq<seq<string>>,
    outAmounts: seq<seq<string>>, outH0Ax: seq<seq<string>>, outH0Ay: seq<seq<string>>, outTimeStamp: string,
    signedMessageHash: string)

  /** The part of the signed hash that the caller recomputes from notes and amounts. */
  datatype Hashed = Hashed(nullifiers: seq<int>, commitments: seq<int>, amountChanges: seq<int>)

  /** Hashes and key checks over data not modelled here; the last two may read the whole exchange but the answered hash. */
  datatype Crypto = Crypto(
    commitment: NoteParams -> Option<string>,
    nullifier: NoteParams -> Option<string>,
    stealthPairOwned: (Payload, Response) -> bool,
    signedHash: (Payload, Response, Hashed) -> Option<int>)

  /** A response without the hash it answers with, which is what that hash is compared against. */
  function Unsigned(r: Response): Response {
    r.(signedMessageHash := "")
  }

  // --- Input notes.

  datatype Slot = Empty | Held(note: NoteParams, commitment: string, nullifier: string)

  function ReadSlot(c: Crypto, me: NoteOwner, token: string, amountText: string, x: string, y: string, timeStamp: string): Option<Slot> {
    var amount := ParseBigInt(amountText);
    if amount.None? then None
    else if amount.value == 0 then Some(Empty)
    else
      var hx, hy := ParseBigInt(x), ParseBigInt(y);
      if hx.None? || hy.None? then None
      else
        var note := NoteParams(amount.value, token, me, (hx.value, hy.value), timeStamp);
        if c.commitment(note).None? || c.nullifier(note).None? then None
        else Some(Held(note, c.commitment(note).value, c.nullifier(note).value))
  }

  /** The first n slots of a row. */
  function ReadRow(c: Crypto, me: NoteOwner, token: string, amounts: seq<string>, xs: seq<string>, ys: seq<string>, times: seq<string>, n: nat)
    : (r: Option<seq<Slot>>)
    requires n <= |amounts| == |xs| == |ys| == |times|
    ensures r.Some? ==> |r.value| == n
    decreases n
  {
    if n == 0 then Some([])
    else
      var rest := ReadRow(c, me, token, amounts, xs, ys, times, n - 1);
      var slot := ReadSlot(c, me, token, amounts[n - 1], xs[n - 1], ys[n - 1], times[n - 1]);
      if rest.None? || slot.None? then None else Some(rest.value + [slot.value])
  }

  predicate InShape(tokens: seq<string>, r: Response) {
    |r.inAmounts| == |r.inH0Ax| == |r.inH0Ay| == |r.inTimeStamps| == |tokens|
  }

  predicate RowShape(r: Response, t: nat)
    requires t < |r.inAmounts| == |r.inH0Ax| == |r.inH0Ay| == |r.inTimeStamps|
  {
    |r.inAmounts[t]| == |r.inH0Ax[t]| == |r.inH0Ay[t]| == |r.inTimeStamps[t]|
  }

  /** The input notes of the first n tokens. */
  function ReadIns(c: Crypto, me: NoteOwner, tokens: seq<string>, r: Response, n: nat): (rows: Option<seq<seq<Slot>>>)
    requires InShape(tokens, r) && n <= |tokens|
    ensures rows.Some? ==> |rows.value| == n
    decreases n
  {
    if n == 0 then Some([])
    else
      var t := n - 1;
      var rest := ReadIns(c, me, tokens, r, t);
      if rest.None? || !RowShape(r, t) then None
      else
        var row := ReadRow(c, me, tokens[t], r.inAmounts[t], r.inH0Ax[t], r.inH0Ay[t], r.inTimeStamps[t], |r.inAmounts[t]|);
        if row.None? then None else Some(rest.value + [row.value])
  }

  function NullifierOf(slot: Slot): string {
    if slot.Empty? then "0" else slot.nullifier
  }

  function NullifierRow(row: seq<Slot>): seq<string> {
    seq(|row|, i requires 0 <= i < |row| => NullifierOf(row[i]))
  }

  function NullifierRows(rows: seq<seq<Slot>>): seq<seq<string>> {
    seq(|rows|, i requires 0 <= i < |rows| => NullifierRow(rows[i]))
  }

  /** The commitments of the notes spent. */
  function Spent(rows: seq<seq<Slot>>): set<string> {
    set t, i | 0 <= t < |rows| && 0 <= i < |rows[t]| && rows[t][i].Held? :: rows[t][i].commitment
  }

  /** As many distinct commitments as were authorised, and every authorised one among them. */
  predicate MatchesAuthorised(spent: set<string>, authorised: Option<seq<string>>) {
    authorised.Some? ==> |spent| == |authorised.value| && forall i :: 0 <= i < |authorised.value| ==> authorised.value[i] in spent
  }

  function OwnerOf(p: Payload): Option<NoteOwner> {
    var x, y := ParseBigInt(p.spendingKey.0), ParseBigInt(p.spendingKey.1);
    if x.None? || y.None? then None else Some(Own(p.nullifyingKey, (x.value, y.value)))
  }

  function InSlots(c: Crypto, p: Payload, r: Response): Option<seq<seq<Slot>>> {
    if !InShape(p.tokens, r) || OwnerOf(p).None? then None else ReadIns(c, OwnerOf(p).value, p.tokens, r, |p.tokens|)
  }

  /** The entry for an input slot: a zero for no amount, else the nullifier of the note the texts name, which also has a commitment. */
  predicate IsNullifierEntry(c: Crypto, entry: string, owner: NoteOwner, token: string, amount: string, x: string, y: string, timeStamp: string) {
    && ParseBigInt(amount).Some?
    && if ParseBigInt(amount) == Some(0) then entry == "0"
       else
         && ParseBigInt(x).Some? && ParseBigInt(y).Some?
         && var note := NoteParams(ParseBigInt(amount).value, token, owner, (ParseBigInt(x).value, ParseBigInt(y).value), timeStamp);
            c.commitment(note).Some? && c.nullifier(note) == Some(entry)
  }

  /** The commitment of the note that the texts of an input slot name, unless its amount is zero. */
  predicate CommitsSlot(c: Crypto, commitment: string, owner: NoteOwner, token: string, amount: string, x: string, y: string, timeStamp: string) {
    && ParseBigInt(amount).Some? && ParseBigInt(amount) != Some(0) && ParseBigInt(x).Some? && ParseBigInt(y).Some?
    && var note := NoteParams(ParseBigInt(amount).value, token, owner, (ParseBigInt(x).value, ParseBigInt(y).value), timeStamp);
       c.commitment(note) == Some(commitment)
  }

  /** The caller, under the keys of the request. */
  predicate IsCaller(p: Payload, me: NoteOwner) {
    && me.Own? && me.nullifyingKey == p.nullifyingKey
    && ParseBigInt(p.spendingKey.0) == Some(me.spendingKey.0) && ParseBigInt(p.spendingKey.1) == Some(me.spendingKey.1)
  }

  predicate SameLengths(r: Response, n: nat) {
    && |r.inAmounts| == |r.inH0Ax| == |r.inH0Ay| == |r.inTimeStamps| == n
    && forall t :: 0 <= t < n ==> |r.inAmounts[t]| == |r.inH0Ax[t]| == |r.inH0Ay[t]| == |r.inTimeStamps[t]|
  }

  /** One entry for every slot of the response, each made of the caller's own keys and the slot's texts. */
  predicate NullifierEntries(c: Crypto, p: Payload, me: NoteOwner, r: Response, rows: seq<seq<string>>) {
    && SameLengths(r, |p.tokens|) && IsCaller(p, me)
    && |rows| == |p.tokens| && (forall t :: 0 <= t < |rows| ==> |rows[t]| == |r.inAmounts[t]|)
    && forall t, i :: 0 <= t < |rows| && 0 <= i < |rows[t]| ==>
         IsNullifierEntry(c, rows[t][i], me, p.tokens[t], r.inAmounts[t][i], r.inH0Ax[t][i], r.inH0Ay[t][i], r.inTimeStamps[t][i])
  }

  predicate CommittedSlot(c: Crypto, p: Payload, me: NoteOwner, r: Response, t: nat, i: nat, commitment: string) {
    && SameLengths(r, |p.tokens|) && t < |p.tokens| && i < |r.inAmounts[t]|
    && CommitsSlot(c, commitment, me, p.tokens[t], r.inAmounts[t][i], r.inH0Ax[t][i], r.inH0Ay[t][i], r.inTimeStamps[t][i])
  }

  /** The commitments of all non-zero slots. */
  ghost predicate SpendSet(c: Crypto, p: Payload, me: NoteOwner, r: Response, spent: set<string>) {
    forall x :: x in spent <==> exists t: nat, i: nat :: CommittedSlot(c, p, me, r, t, i, x)
  }

  /** Of a list of authorised commitments each is spent, and no more different ones than the list is long. */
  ghost predicate SpendsAuthorised(c: Crypto, p: Payload, me: NoteOwner, r: Response, authorised: seq<string>) {
    exists spent :: SpendSet(c, p, me, r, spent) && |spent| == |authorised| && forall i :: 0 <= i < |authorised| ==> authorised[i] in spent
  }

  /** Recomputes the nullifier rows, gathering the commitments spent; fails on any mismatch with what was authorised. */
  method VerifyComputeInNullifiers(c: Crypto, p: Payload, r: Response, authorised: Option<seq<string>>)
    returns (rows: Option<seq<seq<string>>>)
    ensures rows ==
      if InSlots(c, p, r).Some? && MatchesAuthorised(Spent(InSlots(c, p, r).value), authorised) then
        Some(NullifierRows(InSlots(c, p, r).value))
      else None
    ensures rows.Some? ==> exists me :: NullifierEntries(c, p, me, r, rows.value)
    ensures rows.Some? && authorised.Some? ==> forall me :: IsCaller(p, me) ==> SpendsAuthorised(c, p, me, r, authorised.value)
  {
    hide ParseBigInt, NullifierEntries, SpendsAuthorised, IsCaller;
    if !InShape(p.tokens, r) {
      return None;
    }
    var me := OwnerOf(p);
    if me.None? {
      return None;
    }
    var spentCommitments: set<string> := {};
    var inNullifiers: seq<seq<string>> := [];
    ghost var read: seq<seq<Slot>> := [];
    for t := 0 to |p.tokens|
      invariant ReadIns(c, me.value, p.tokens, r, t) == Some(read)
      invariant inNullifiers == NullifierRows(read) && spentCommitments == Spent(read)
    {
      if !RowShape(r, t) {
        ReadInsFails(c, me.value, p.tokens, r, t + 1);
        return None;
      }
      var row, spent, ok := NullifyRow(c, me.value, p.tokens[t], r.inAmounts[t], r.inH0Ax[t], r.inH0Ay[t], r.inTimeStamps[t]);
      if !ok {
        ReadInsFails(c, me.value, p.tokens, r, t + 1);
        return None;
      }
      ghost var slots := ReadRow(c, me.value, p.tokens[t], r.inAmounts[t], r.inH0Ax[t], r.inH0Ay[t], r.inTimeStamps[t], |r.inAmounts[t]|).value;
      SpentNext(read, slots);
      read := read + [slots];
      inNullifiers := inNullifiers + [row];
      spentCommitments := spentCommitments + spent;
    }
    if !MatchesAuthorised(spentCommitments, authorised) {
      return None;
    }
    EntriesHold(c, p, r);
    if authorised.Some? {
      forall me | IsCaller(p, me) ensures SpendsAuthorised(c, p, me, r, authorised.value) { SpendHolds(c, p, me, r, authorised.value); }
    }
    rows := Some(inNullifiers);
  }

  lemma {:induction false} InRowAt(c: Crypto, me: NoteOwner, tokens: seq<string>, r: Response, n: nat, t: nat)
    requires InShape(tokens, r) && t < n <= |tokens| && ReadIns(c, me, tokens, r, n).Some?
    ensures RowShape(r, t)
    ensures Some(ReadIns(c, me, tokens, r, n).value[t]) ==
            ReadRow(c, me, tokens[t], r.inAmounts[t], r.inH0Ax[t], r.inH0Ay[t], r.inTimeStamps[t], |r.inAmounts[t]|)
    decreases n
  {
    hide ReadRow;
    if t < n - 1 { InRowAt(c, me, tokens, r, n - 1, t); }
  }

  lemma {:induction false} SlotAt(c: Crypto, me: NoteOwner, token: string, amounts: seq<string>, xs: seq<string>, ys: seq<string>, times: seq<string>,
                                  n: nat, i: nat)
    requires i < n <= |amounts| == |xs| == |ys| == |times| && ReadRow(c, me, token, amounts, xs, ys, times, n).Some?
    ensures ReadSlot(c, me, token, amounts[i], xs[i], ys[i], times[i]) == Some(ReadRow(c, me, token, amounts, xs, ys, times, n).value[i])
    decreases n
  {
    hide ReadSlot;
    if i < n - 1 { SlotAt(c, me, token, amounts, xs, ys, times, n - 1, i); }
  }

  lemma SlotIs(c: Crypto, me: NoteOwner, token: string, amount: string, x: string, y: string, timeStamp: string)
    ensures var slot := ReadSlot(c, me, token, amount, x, y, timeStamp);
            slot.Some? ==>
              && IsNullifierEntry(c, NullifierOf(slot.value), me, token, amount, x, y, timeStamp)
              && forall commitment :: CommitsSlot(c, commitment, me, token, amount, x, y, timeStamp) <==> slot.value.Held? && slot.value.commitment == commitment
  {
    hide ParseBigInt;
  }

  /** What stands in a slot of accepted rows. */
  lemma SlotOf(c: Crypto, p: Payload, me: NoteOwner, r: Response, t: nat, i: nat)
    requires InSlots(c, p, r).Some? && OwnerOf(p) == Some(me) && t < |p.tokens|
    ensures |InSlots(c, p, r).value| == |p.tokens| && SameLengths(r, |p.tokens|) && |InSlots(c, p, r).value[t]| == |r.inAmounts[t]|
    ensures i < |r.inAmounts[t]| ==>
              Some(InSlots(c, p, r).value[t][i]) ==
              ReadSlot(c, me, p.tokens[t], r.inAmounts[t][i], r.inH0Ax[t][i], r.inH0Ay[t][i], r.inTimeStamps[t][i])
  {
    hide ReadSlot, OwnerOf, ReadRow, ReadIns;
    forall k | 0 <= k < |p.tokens| ensures |r.inAmounts[k]| == |r.inH0Ax[k]| == |r.inH0Ay[k]| == |r.inTimeStamps[k]| {
      InRowAt(c, me, p.tokens, r, |p.tokens|, k);
    }
    InRowAt(c, me, p.tokens, r, |p.tokens|, t);
    if i < |r.inAmounts[t]| {
      SlotAt(c, me, p.tokens[t], r.inAmounts[t], r.inH0Ax[t], r.inH0Ay[t], r.inTimeStamps[t], |r.inAmounts[t]|, i);
    }
  }

  lemma CallerIsOwner(p: Payload, me: NoteOwner)
    ensures IsCaller(p, me) <==> OwnerOf(p) == Some(me)
  {
    hide ParseBigInt;
  }

  lemma EntriesHold(c: Crypto, p: Payload, r: Response)
    requires InSlots(c, p, r).Some?
    ensures exists me :: NullifierEntries(c, p, me, r, NullifierRows(InSlots(c, p, r).value))
  {
    hide ReadIns, OwnerOf, IsCaller, ReadSlot, IsNullifierEntry;
    var me, slots: seq<seq<Slot>> := OwnerOf(p).value, InSlots(c, p, r).value;
    var rows := NullifierRows(slots);
    CallerIsOwner(p, me);
    assert SameLengths(r, |p.tokens|) by { if |p.tokens| > 0 { SlotOf(c, p, me, r, 0, 0); } }
    forall t | 0 <= t < |rows| ensures |rows[t]| == |r.inAmounts[t]| { SlotOf(c, p, me, r, t, 0); }
    forall t, i | 0 <= t < |rows| && 0 <= i < |rows[t]|
      ensures IsNullifierEntry(c, rows[t][i], me, p.tokens[t], r.inAmounts[t][i], r.inH0Ax[t][i], r.inH0Ay[t][i], r.inTimeStamps[t][i])
    {
      SlotOf(c, p, me, r, t, i);
      SlotIs(c, me, p.tokens[t], r.inAmounts[t][i], r.inH0Ax[t][i], r.inH0Ay[t][i], r.inTimeStamps[t][i]);
    }
    assert NullifierEntries(c, p, me, r, rows);
  }

  lemma SpendHolds(c: Crypto, p: Payload, me: NoteOwner, r: Response, authorised: seq<string>)
    requires InSlots(c, p, r).Some? && IsCaller(p, me) && MatchesAuthorised(Spent(InSlots(c, p, r).value), Some(authorised))
    ensures SpendsAuthorised(c, p, me, r, authorised)
  {
    hide ReadIns, OwnerOf, IsCaller, ReadSlot, CommitsSlot;
    CallerIsOwner(p, me);
    var slots: seq<seq<Slot>> := InSlots(c, p, r).value;
    var spent := Spent(slots);
    forall x ensures x in spent <==> exists t: nat, i: nat :: CommittedSlot(c, p, me, r, t, i, x) {
      if x in spent {
        var t: nat, i: nat :| t < |slots| && i < |slots[t]| && slots[t][i].Held? && slots[t][i].commitment == x;
        SlotOf(c, p, me, r, t, i);
        SlotIs(c, me, p.tokens[t], r.inAmounts[t][i], r.inH0Ax[t][i], r.inH0Ay[t][i], r.inTimeStamps[t][i]);
        assert CommittedSlot(c, p, me, r, t, i, x);
      }
      if t: nat, i: nat :| CommittedSlot(c, p, me, r, t, i, x) {
        SlotOf(c, p, me, r, t, i);
        SlotIs(c, me, p.tokens[t], r.inAmounts[t][i], r.inH0Ax[t][i], r.inH0Ay[t][i], r.inTimeStamps[t][i]);
      }
    }
    assert SpendSet(c, p, me, r, spent);
  }


  lemma {:induction false} ReadInsFails(c: Crypto, me: NoteOwner, tokens: seq<string>, r: Response, n: nat)
    requires InShape(tokens, r) && n <= |tokens| && ReadIns(c, me, tokens, r, n).None?
    ensures ReadIns(c, me, tokens, r, |tokens|).None?
    decreases |tokens| - n
  {
    hide ReadRow;
    if n < |tokens| { ReadInsFails(c, me, tokens, r, n + 1); }
  }

  lemma SpentNext(rows: seq<seq<Slot>>, row: seq<Slot>)
    ensures Spent(rows + [row]) == Spent(rows) + Spent([row])
    ensures NullifierRows(rows + [row]) == NullifierRows(rows) + [NullifierRow(row)]
  {
    var all := rows + [row];
    forall x ensures x in Spent(all) <==> x in Spent(rows) || x in Spent([row]) {
      if x in Spent(all) {
        var t, i :| 0 <= t < |all| && 0 <= i < |all[t]| && all[t][i].Held? && all[t][i].commitment == x;
        if t < |rows| { assert rows[t][i].Held?; } else { assert [row][0][i].Held?; }
      }
      if x in Spent(rows) {
        var t, i :| 0 <= t < |rows| && 0 <= i < |rows[t]| && rows[t][i].Held? && rows[t][i].commitment == x;
        assert all[t][i].Held?;
      }
      if x in Spent([row]) {
        var t, i :| 0 <= t < |[row]| && 0 <= i < |[row][t]| && [row][t][i].Held? && [row][t][i].commitment == x;
        assert all[|rows|][i].Held?;
      }
    }
  }

  method NullifyRow(c: Crypto, me: NoteOwner, token: string, amounts: seq<string>, xs: seq<string>, ys: seq<string>, times: seq<string>)
    returns (row: seq<string>, spent: set<string>, ok: bool)
    requires |amounts| == |xs| == |ys| == |times|
    ensures ok <==> ReadRow(c, me, token, amounts, xs, ys, times, |amounts|).Some?
    ensures ok ==> var slots := ReadRow(c, me, token, amounts, xs, ys, times, |amounts|).value;
                   row == NullifierRow(slots) && spent == Spent([slots])
  {
    hide ParseBigInt, ReadSlot;
    row, spent, ok := [], {}, true;
    ghost var read: seq<Slot> := [];
    for i := 0 to |amounts|
      invariant ReadRow(c, me, token, amounts, xs, ys, times, i) == Some(read)
      invariant row == NullifierRow(read) && spent == Spent([read])
    {
      var slot := ReadSlot(c, me, token, amounts[i], xs[i], ys[i], times[i]);
      if slot.None? {
        ReadRowFails(c, me, token, amounts, xs, ys, times, i + 1);
        return [], {}, false;
      }
      SpentSlot(read, slot.value);
      read := read + [slot.value];
      row := row + [NullifierOf(slot.value)];
      if slot.value.Held? {
        spent := spent + {slot.value.commitment};
      }
    }
  }

  lemma {:induction false} ReadRowFails(c: Crypto, me: NoteOwner, token: string, amounts: seq<string>, xs: seq<string>, ys: seq<string>, times: seq<string>, n: nat)
    requires n <= |amounts| == |xs| == |ys| == |times| && ReadRow(c, me, token, amounts, xs, ys, times, n).None?
    ensures ReadRow(c, me, token, amounts, xs, ys, times, |amounts|).None?
    decreases |amounts| - n
  {
    hide ReadSlot;
    if n < |amounts| { ReadRowFails(c, me, token, amounts, xs, ys, times, n + 1); }
  }

  lemma SpentSlot(row: seq<Slot>, slot: Slot)
    ensures Spent([row + [slot]]) == Spent([row]) + if slot.Held? then {slot.commitment} else {}
  {
    var all := row + [slot];
    forall x ensures x in Spent([all]) <==> x in Spent([row]) || (slot.Held? && x == slot.commitment) {
      if x in Spent([all]) {
        var t, i :| 0 <= t < |[all]| && 0 <= i < |[all][t]| && [all][t][i].Held? && [all][t][i].commitment == x;
        if i < |row| { assert [row][0][i].Held?; }
      }
      if x in Spent([row]) {
        var t, i :| 0 <= t < |[row]| && 0 <= i < |[row][t]| && [row][t][i].Held? && [row][t][i].commitment == x;
        assert [all][0][i].Held?;
      }
      if slot.Held? { assert [all][0][|row|].Held?; }
    }
  }

  // --- The spend set.

  ghost predicate Distinct<T(!new)>(s: seq<T>) {
    forall i, j :: 0 <= i < j < |s| ==> s[i] != s[j]
  }

  lemma {:induction false} DistinctIffSetSize(s: seq<string>)
    ensures |set x | x in s| <= |s|
    ensures |set x | x in s| == |s| <==> Distinct(s)
    decreases |s|
  {
    if s != [] {
      var rest, last := s[..|s| - 1], s[|s| - 1];
      DistinctIffSetSize(rest);
      assert s == rest + [last];
      assert (set x | x in s) == (set x | x in rest) + {last};
      if last in rest {
        assert (set x | x in s) == (set x | x in rest);
        var k :| 0 <= k < |rest| && rest[k] == last;
        assert s[k] == s[|s| - 1];
      } else if Distinct(rest) {
        assert forall i :: 0 <= i < |rest| ==> rest[i] in rest;
        assert Distinct(s);
      } else {
        var i, j :| 0 <= i < j < |rest| && rest[i] == rest[j];
        assert s[i] == s[j];
      }
    }
  }

  lemma SubsetOfSameSize<T>(a: set<T>, b: set<T>)
    requires a <= b && |a| == |b|
    ensures a == b
  {
    assert b == a + (b - a);
    assert |b| == |a| + |b - a|;
  }

  /** An accepted spend set is exactly the authorised one exactly when the authorised commitments are distinct. */
  lemma SpendSetIsAuthorisedIff(spent: set<string>, authorised: seq<string>)
    requires MatchesAuthorised(spent, Some(authorised))
    ensures spent == (set x | x in authorised) <==> Distinct(authorised)
  {
    var wanted := set x | x in authorised;
    DistinctIffSetSize(authorised);
    assert wanted <= spent;
    if Distinct(authorised) { SubsetOfSameSize(wanted, spent); }
  }
}
