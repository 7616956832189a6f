/**
 What accepting a prepared transaction guarantees about the notes behind its signed hash. Nothing is assumed of the
 hashes: where an opening of the signed hash does not balance, it shows two notes of different content with one hash.
 */
module SignedBalance {
  import opened Wrappers
  import opened Numbers
  import opened Enclave
  import opened EnclaveAmounts
  import opened PrepareTx
  import opened Field

  // --- The spend set.

  /** An accepted response spends exactly the authorised notes when these are distinct. */
  lemma AcceptedSpendsAuthorised(c: Crypto, p: Payload, r: Response)
    requires Checked(c, p, r) && Authorised(c, p).value.Some?
    ensures Spent(InSlots(c, p, r).value) == (set x | x in Authorised(c, p).value.value) <==> Distinct(Authorised(c, p).value.value)
  {
    hide InSlots, OutSlots, AmountsConserve, Recomputed, Spent, Authorised, ParseBigInt;
    SpendSetIsAuthorisedIff(Spent(InSlots(c, p, r).value), Authorised(c, p).value.value);
  }

  /** The commitments of the held slots, one for each slot. */
  function SpentList(rows: seq<seq<Slot>>): seq<string> {
    HeldCommitments(Flatten(rows))
  }

  function HeldCommitments(slots: seq<Slot>): seq<string> {
    if slots == [] then []
    else HeldCommitments(slots[..|slots| - 1]) + if slots[|slots| - 1].Held? then [slots[|slots| - 1].commitment] else []
  }

  lemma {:induction false} HeldMembers(slots: seq<Slot>, x: string)
    ensures x in HeldCommitments(slots) <==> exists i :: 0 <= i < |slots| && slots[i].Held? && slots[i].commitment == x
    decreases |slots|
  {
    if slots != [] {
      var n := |slots| - 1;
      var init, last := slots[..n], slots[n];
      HeldMembers(init, x);
      if last.Held? && last.commitment == x {
        assert x in HeldCommitments(slots);
      } else if x in HeldCommitments(init) {
        var i :| 0 <= i < n && init[i].Held? && init[i].commitment == x;
        assert slots[i] == init[i];
      } else {
        forall i | 0 <= i < |slots| ensures !(slots[i].Held? && slots[i].commitment == x) {
          if i < n { assert slots[i] == init[i]; }
        }
      }
    }
  }

  lemma {:induction false} FlattenMembers(rows: seq<seq<Slot>>, slot: Slot)
    ensures slot in Flatten(rows) <==> exists t :: 0 <= t < |rows| && slot in rows[t]
    decreases |rows|
  {
    if rows != [] {
      var n := |rows| - 1;
      FlattenMembers(rows[..n], slot);
      assert forall t :: 0 <= t < n ==> rows[..n][t] == rows[t];
    }
  }

  lemma SpentIsList(rows: seq<seq<Slot>>)
    ensures Spent(rows) == (set x | x in SpentList(rows))
  {
    hide HeldCommitments, Flatten;
    var flat := Flatten(rows);
    forall x ensures x in Spent(rows) <==> x in SpentList(rows) {
      HeldMembers(flat, x);
      if x in Spent(rows) {
        var t, i :| 0 <= t < |rows| && 0 <= i < |rows[t]| && rows[t][i].Held? && rows[t][i].commitment == x;
        assert rows[t][i] in rows[t];
        FlattenMembers(rows, rows[t][i]);
        var k :| 0 <= k < |flat| && flat[k] == rows[t][i];
      }
      if i :| 0 <= i < |flat| && flat[i].Held? && flat[i].commitment == x {
        FlattenMembers(rows, flat[i]);
        var t :| 0 <= t < |rows| && flat[i] in rows[t];
        var k :| 0 <= k < |rows[t]| && rows[t][k] == flat[i];
      }
    }
  }

  /** The check compares sets: each note is spent once exactly when there are as many held slots as authorised commitments. */
  lemma EachSpentOnceIff(c: Crypto, p: Payload, r: Response)
    requires Checked(c, p, r) && Authorised(c, p).value.Some?
    ensures Distinct(SpentList(InSlots(c, p, r).value)) <==> |SpentList(InSlots(c, p, r).value)| == |Authorised(c, p).value.value|
  {
    hide InSlots, OutSlots, AmountsConserve, Recomputed, Spent, Authorised, ParseBigInt, SpentList, Distinct;
    SpentIsList(InSlots(c, p, r).value);
    DistinctIffSetSize(SpentList(InSlots(c, p, r).value));
  }

  lemma ForcedEmptySpendsNothing(c: Crypto, p: Payload, r: Response, t: nat, i: nat)
    requires Checked(c, p, r) && p.inputCommitments.None? && p.speculative.None? && p.forceEmptyUtxos
    requires t < |InSlots(c, p, r).value| && i < |InSlots(c, p, r).value[t]|
    ensures InSlots(c, p, r).value[t][i] == Empty
  {
    hide InSlots, OutSlots, AmountsConserve, Recomputed, ParseBigInt;
    HeldIsSpent(InSlots(c, p, r).value, t, i);
  }

  lemma HeldIsSpent(rows: seq<seq<Slot>>, t: nat, i: nat)
    requires t < |rows| && i < |rows[t]|
    ensures rows[t][i].Held? ==> rows[t][i].commitment in Spent(rows)
  {
  }

  // --- The balance of one token.

  /** For every token, outputs minus inputs is the signed change. */
  lemma AcceptedBalances(c: Crypto, p: Payload, r: Response, t: nat)
    requires Checked(c, p, r) && t < |p.tokens|
    ensures |InSlots(c, p, r).value| == |OutSlots(c, p, r).value| == |p.tokens| && SignedChange(p, t).Some?
    ensures TotalOut(OutSlots(c, p, r).value[t]) - TotalIn(InSlots(c, p, r).value[t]) == SignedChange(p, t).value
  {
    hide ReadIns, ReadRow, OutRow, OutRows, TotalIn, TotalOut, TextSum, RecipientSum, ParseBigInt, ParseAll, Flatten, Authorised, MatchesAuthorised;
    var me := OwnerOf(p).value;
    InRowAt(c, me, p.tokens, r, |p.tokens|, t);
    OutRowAt(c, me, p, r, |p.tokens|, t);
    TotalInIsText(c, me, p.tokens[t], r.inAmounts[t], r.inH0Ax[t], r.inH0Ay[t], r.inTimeStamps[t], |r.inAmounts[t]|);
    TotalOutIsText(c, me, p, r, t, SelfSlots(p) + |p.recipientAddress|);
    assert Balanced(r.inAmounts[t], r.outAmounts[t], SelfSlots(p), p.amountChanges[t]);
  }

  // --- Openings of the hashed numbers.

  function HashOf(h: NoteParams -> Option<string>, note: NoteParams): Option<int> {
    if h(note).None? then None else ParseBigInt(h(note).value)
  }

  /** The number an optional note is hashed to; an empty slot is a zero. */
  function NumberOf(h: NoteParams -> Option<string>, note: Option<NoteParams>): Option<int> {
    if note.None? then Some(0) else HashOf(h, note.value)
  }

  /** Token addresses are hashed as field elements, so spellings of one number are one token. */
  function TokenNumber(token: string): Option<int> {
    var n := ParseBigInt(token);
    if n.None? then None else Some(n.value % FIELD_P)
  }

  /** What of a note has to be bound: its amount and its token, as field elements. */
  datatype Content = NoContent | Content(amount: int, token: Option<int>)

  function ContentOf(note: Option<NoteParams>): Content {
    if note.None? then NoContent else Content(note.value.amount % FIELD_P, TokenNumber(note.value.token))
  }

  /** Two notes, or a note and an empty slot, of different content with the same hash. */
  predicate Collide(h: NoteParams -> Option<string>, a: Option<NoteParams>, b: Option<NoteParams>) {
    NumberOf(h, a).Some? && NumberOf(h, a) == NumberOf(h, b) && ContentOf(a) != ContentOf(b)
  }

  predicate SomeCollide(h: NoteParams -> Option<string>, a: seq<Option<NoteParams>>, b: seq<Option<NoteParams>>) {
    |a| == |b| && exists i :: 0 <= i < |a| && Collide(h, a[i], b[i])
  }

  /** One note, or an empty slot, for every hashed number. */
  predicate Opens(h: NoteParams -> Option<string>, notes: seq<Option<NoteParams>>, values: seq<int>) {
    |notes| == |values| && forall i :: 0 <= i < |notes| ==> NumberOf(h, notes[i]) == Some(values[i])
  }

  /** What notes of one token hold. */
  function TokenTotal(notes: seq<Option<NoteParams>>, token: int): int {
    if notes == [] then 0 else TokenTotal(notes[..|notes| - 1], token) + Holds(notes[|notes| - 1], token)
  }

  function Holds(note: Option<NoteParams>, token: int): int {
    if note.Some? && TokenNumber(note.value.token) == Some(token) then note.value.amount else 0
  }

  /** The signed changes of every spelling and occurrence of a token among the first n. */
  function ChangeFor(p: Payload, token: int, n: nat): int
    requires ChangesParse(p) && n <= |p.tokens|
  {
    if n == 0 then 0 else ChangeFor(p, token, n - 1) + if TokenNumber(p.tokens[n - 1]) == Some(token) then SignedChange(p, n - 1).value else 0
  }

  predicate Congruent(x: int, y: int) {
    (x - y) % FIELD_P == 0
  }

  /** Every amount is a field element as it stands. */
  predicate FieldAmounts(notes: seq<Option<NoteParams>>) {
    forall i :: 0 <= i < |notes| && notes[i].Some? ==> 0 <= notes[i].value.amount < FIELD_P
  }

  predicate SameContents(a: seq<Option<NoteParams>>, b: seq<Option<NoteParams>>) {
    |a| == |b| && forall i :: 0 <= i < |a| ==> ContentOf(a[i]) == ContentOf(b[i])
  }

  lemma CongruentSums(x: int, y: int, u: int, v: int)
    requires Congruent(x, y) && Congruent(u, v)
    ensures Congruent(x + u, y + v) && Congruent(x - u, y - v)
  {
  }

  lemma SameHolds(a: Option<NoteParams>, b: Option<NoteParams>, token: int)
    requires ContentOf(a) == ContentOf(b)
    ensures Congruent(Holds(a, token), Holds(b, token))
    ensures (a.Some? ==> 0 <= a.value.amount < FIELD_P) && (b.Some? ==> 0 <= b.value.amount < FIELD_P) ==> Holds(a, token) == Holds(b, token)
  {
    hide ParseBigInt;
  }

  /** Notes of the same contents hold, of every token, the same up to multiples of the field order, and exactly the same when amounts are field elements. */
  lemma {:induction false} SameTotals(a: seq<Option<NoteParams>>, b: seq<Option<NoteParams>>, token: int)
    requires SameContents(a, b)
    ensures Congruent(TokenTotal(a, token), TokenTotal(b, token))
    ensures FieldAmounts(a) && FieldAmounts(b) ==> TokenTotal(a, token) == TokenTotal(b, token)
    decreases |a|
  {
    hide Holds, ContentOf, Congruent;
    if a == [] {
      assert Congruent(0, 0) by { ZeroIsCongruent(); }
    } else {
      var n := |a| - 1;
      SameTotals(a[..n], b[..n], token);
      SameHolds(a[n], b[n], token);
      CongruentSums(TokenTotal(a[..n], token), TokenTotal(b[..n], token), Holds(a[n], token), Holds(b[n], token));
    }
  }

  lemma ZeroIsCongruent()
    ensures Congruent(0, 0)
  {
  }

  /** A slot as a note and the text of its hash. */
  datatype Entry = Entry(note: Option<NoteParams>, hash: string)

  predicate Honest(h: NoteParams -> Option<string>, e: Entry) {
    if e.note.None? then e.hash == "0" else h(e.note.value) == Some(e.hash)
  }

  function Notes(entries: seq<Entry>): seq<Option<NoteParams>> {
    seq(|entries|, i requires 0 <= i < |entries| => entries[i].note)
  }

  function Hashes(entries: seq<Entry>): seq<string> {
    seq(|entries|, i requires 0 <= i < |entries| => entries[i].hash)
  }

  function HashRows(rows: seq<seq<Entry>>): seq<seq<string>> {
    seq(|rows|, t requires 0 <= t < |rows| => Hashes(rows[t]))
  }

  lemma ZeroText()
    ensures ParseBigInt("0") == Some(0)
  {
    DecimalRoundTrip(0);
    assert Numbers.Text(0, 10) == "0";
  }

  /** An opening of the hashed numbers has, slot by slot, the content of the notes they were computed from, or collides with one of them. */
  lemma OneOpening(h: NoteParams -> Option<string>, entries: seq<Entry>, values: seq<int>, notes: seq<Option<NoteParams>>)
    requires Opens(h, notes, values) && ParseAll(Hashes(entries)) == Some(values)
    requires forall i :: 0 <= i < |entries| ==> Honest(h, entries[i])
    ensures |notes| == |entries|
    ensures SameContents(notes, Notes(entries)) || SomeCollide(h, notes, Notes(entries))
  {
    hide ParseBigInt, ParseAll, ContentOf;
    ParsedAt(Hashes(entries), 0);
    var own := Notes(entries);
    forall i | 0 <= i < |entries| ensures NumberOf(h, notes[i]) == NumberOf(h, own[i]) == Some(values[i]) {
      ParsedAt(Hashes(entries), i);
      ZeroText();
      assert Honest(h, entries[i]);
    }
    if !SameContents(notes, own) {
      var i :| 0 <= i < |notes| && ContentOf(notes[i]) != ContentOf(own[i]);
      assert Collide(h, notes[i], own[i]);
    }
  }

  lemma {:induction false} FlattenHashes(rows: seq<seq<Entry>>)
    ensures Flatten(HashRows(rows)) == Hashes(Flatten(rows))
    decreases |rows|
  {
    if rows != [] {
      var n := |rows| - 1;
      FlattenHashes(rows[..n]);
      assert HashRows(rows)[..n] == HashRows(rows[..n]);
      assert Hashes(Flatten(rows[..n]) + rows[n]) == Hashes(Flatten(rows[..n])) + Hashes(rows[n]);
    }
  }

  lemma {:induction false} FlattenHonest(h: NoteParams -> Option<string>, rows: seq<seq<Entry>>)
    requires forall t, i :: 0 <= t < |rows| && 0 <= i < |rows[t]| ==> Honest(h, rows[t][i])
    ensures forall i :: 0 <= i < |Flatten(rows)| ==> Honest(h, Flatten(rows)[i])
    decreases |rows|
  {
    if rows != [] {
      var n := |rows| - 1;
      assert forall t :: 0 <= t < n ==> rows[..n][t] == rows[t];
      FlattenHonest(h, rows[..n]);
    }
  }

  lemma {:induction false} TokenTotalJoins(a: seq<Option<NoteParams>>, b: seq<Option<NoteParams>>, token: int)
    ensures TokenTotal(a + b, token) == TokenTotal(a, token) + TokenTotal(b, token)
    decreases |b|
  {
    if b == [] {
      assert a + b == a;
    } else {
      var n := |b| - 1;
      TokenTotalJoins(a, b[..n], token);
      assert (a + b)[..|a| + n] == a + b[..n];
    }
  }

  function EntryTotal(rows: seq<seq<Entry>>, token: int): int {
    TokenTotal(Notes(Flatten(rows)), token)
  }

  lemma EntryTotalNext(rows: seq<seq<Entry>>, row: seq<Entry>, token: int)
    ensures EntryTotal(rows + [row], token) == EntryTotal(rows, token) + TokenTotal(Notes(row), token)
  {
    var all := rows + [row];
    assert all[..|all| - 1] == rows;
    assert Notes(Flatten(rows) + row) == Notes(Flatten(rows)) + Notes(row);
    TokenTotalJoins(Notes(Flatten(rows)), Notes(row), token);
  }

  // --- Slots as entries.

  function InEntry(slot: Slot): Entry {
    if slot.Empty? then Entry(None, "0") else Entry(Some(slot.note), slot.nullifier)
  }

  function OutEntry(slot: OutSlot): Entry {
    if slot.Nothing? then Entry(None, "0") else Entry(Some(slot.note), slot.commitment)
  }

  function InEntries(row: seq<Slot>): seq<Entry> {
    seq(|row|, i requires 0 <= i < |row| => InEntry(row[i]))
  }

  function OutEntries(row: seq<OutSlot>): seq<Entry> {
    seq(|row|, i requires 0 <= i < |row| => OutEntry(row[i]))
  }

  function InEntryRows(rows: seq<seq<Slot>>): seq<seq<Entry>> {
    seq(|rows|, t requires 0 <= t < |rows| => InEntries(rows[t]))
  }

  function OutEntryRows(rows: seq<seq<OutSlot>>): seq<seq<Entry>> {
    seq(|rows|, t requires 0 <= t < |rows| => OutEntries(rows[t]))
  }

  lemma OneMoreNote(notes: seq<Option<NoteParams>>, note: Option<NoteParams>, token: int)
    ensures TokenTotal(notes + [note], token) == TokenTotal(notes, token) + Holds(note, token)
  {
    assert (notes + [note])[..|notes|] == notes;
  }

  lemma NoNotes(token: int)
    ensures TokenTotal([], token) == 0
  {
  }

  lemma InSlotEntry(c: Crypto, me: NoteOwner, token: string, amountText: string, x: string, y: string, timeStamp: string)
    ensures var slot := ReadSlot(c, me, token, amountText, x, y, timeStamp);
            slot.Some? ==> Honest(c.nullifier, InEntry(slot.value)) && (slot.value.Held? ==> slot.value.note.token == token)
  {
    hide ParseBigInt;
  }

  lemma OutSlotEntry(c: Crypto, me: NoteOwner, p: Payload, r: Response, t: nat, i: nat)
    requires OutShape(p, r) && t < |p.tokens| && OutRowShape(p, r, t) && i < SelfSlots(p) + |p.recipientAddress|
    ensures var slot := OutSlotAt(c, me, p, r, t, i);
            slot.Some? ==> Honest(c.commitment, OutEntry(slot.value)) && (slot.value.Created? ==> slot.value.note.token == p.tokens[t])
  {
    hide ParseBigInt, Text.Split;
  }

  /** Every note of a token's input row is of that token and carries its own nullifier. */
  lemma {:induction false} InRowEntries(c: Crypto, me: NoteOwner, token: string, amounts: seq<string>, xs: seq<string>, ys: seq<string>,
                                        times: seq<string>, n: nat, wanted: int)
    requires n <= |amounts| == |xs| == |ys| == |times| && ReadRow(c, me, token, amounts, xs, ys, times, n).Some?
    ensures var row := ReadRow(c, me, token, amounts, xs, ys, times, n).value;
            && (forall i :: 0 <= i < n ==> Honest(c.nullifier, InEntry(row[i])))
            && TokenTotal(Notes(InEntries(row)), wanted) == if TokenNumber(token) == Some(wanted) then TotalIn(row) else 0
    decreases n
  {
    hide ParseBigInt, ReadSlot, Honest, TokenTotal, TokenNumber;
    if n == 0 {
      var none: seq<Slot> := [];
      assert Notes(InEntries(none)) == [] && TotalIn(none) == 0;
      NoNotes(wanted);
    } else {
      InSlotEntry(c, me, token, amounts[n - 1], xs[n - 1], ys[n - 1], times[n - 1]);
      InRowEntries(c, me, token, amounts, xs, ys, times, n - 1, wanted);
      var row, rest := ReadRow(c, me, token, amounts, xs, ys, times, n).value, ReadRow(c, me, token, amounts, xs, ys, times, n - 1).value;
      assert row[..n - 1] == rest;
      assert Notes(InEntries(row)) == Notes(InEntries(rest)) + [InEntry(row[n - 1]).note];
      OneMoreNote(Notes(InEntries(rest)), InEntry(row[n - 1]).note, wanted);
    }
  }

  lemma {:induction false} OutRowEntries(c: Crypto, me: NoteOwner, p: Payload, r: Response, t: nat, n: nat, wanted: int)
    requires OutShape(p, r) && t < |p.tokens| && OutRowShape(p, r, t)
    requires n <= SelfSlots(p) + |p.recipientAddress| && OutRow(c, me, p, r, t, n).Some?
    ensures var row := OutRow(c, me, p, r, t, n).value;
            && (forall i :: 0 <= i < n ==> Honest(c.commitment, OutEntry(row[i])))
            && TokenTotal(Notes(OutEntries(row)), wanted) == if TokenNumber(p.tokens[t]) == Some(wanted) then TotalOut(row) else 0
    decreases n
  {
    hide ParseBigInt, OutSlotAt, Honest, TokenTotal, TokenNumber;
    if n == 0 {
      var none: seq<OutSlot> := [];
      assert Notes(OutEntries(none)) == [] && TotalOut(none) == 0;
      NoNotes(wanted);
    } else {
      OutSlotEntry(c, me, p, r, t, n - 1);
      OutRowEntries(c, me, p, r, t, n - 1, wanted);
      var row, rest := OutRow(c, me, p, r, t, n).value, OutRow(c, me, p, r, t, n - 1).value;
      assert row[..n - 1] == rest;
      assert Notes(OutEntries(row)) == Notes(OutEntries(rest)) + [OutEntry(row[n - 1]).note];
      OneMoreNote(Notes(OutEntries(rest)), OutEntry(row[n - 1]).note, wanted);
    }
  }

  /** Of every token, notes created minus notes spent is the sum of its signed changes. */
  lemma {:induction false} BalanceOfFirst(c: Crypto, p: Payload, r: Response, token: int, n: nat)
    requires Checked(c, p, r) && n <= |p.tokens| && ChangesParse(p)
    requires |InSlots(c, p, r).value| == |OutSlots(c, p, r).value| == |p.tokens|
    ensures EntryTotal(OutEntryRows(OutSlots(c, p, r).value[..n]), token) - EntryTotal(InEntryRows(InSlots(c, p, r).value[..n]), token)
            == ChangeFor(p, token, n)
    decreases n
  {
    hide Checked, OutSlots, InSlots, EntryTotal, SignedChange, TokenTotal, TotalIn, TotalOut, TokenNumber, Notes, Honest;
    SlotRowsExist(c, p, r);
    var ins: seq<seq<Slot>>, outs: seq<seq<OutSlot>> := InSlots(c, p, r).value, OutSlots(c, p, r).value;
    if n == 0 {
      assert OutEntryRows(outs[..0]) == [] && InEntryRows(ins[..0]) == [];
      NoEntries(token);
    } else {
      var t := n - 1;
      BalanceOfFirst(c, p, r, token, t);
      AcceptedBalances(c, p, r, t);
      RowEntries(c, p, r, token, t);
      assert OutEntryRows(outs[..n]) == OutEntryRows(outs[..t]) + [OutEntries(outs[t])];
      assert InEntryRows(ins[..n]) == InEntryRows(ins[..t]) + [InEntries(ins[t])];
      EntryTotalNext(OutEntryRows(outs[..t]), OutEntries(outs[t]), token);
      EntryTotalNext(InEntryRows(ins[..t]), InEntries(ins[t]), token);
    }
  }

  lemma NoEntries(token: int)
    ensures EntryTotal([], token) == 0
  {
  }

  lemma RowEntries(c: Crypto, p: Payload, r: Response, wanted: int, t: nat)
    requires Checked(c, p, r) && t < |p.tokens|
    ensures |InSlots(c, p, r).value| == |OutSlots(c, p, r).value| == |p.tokens|
    ensures var row := InSlots(c, p, r).value[t];
            && TokenTotal(Notes(InEntries(row)), wanted) == (if TokenNumber(p.tokens[t]) == Some(wanted) then TotalIn(row) else 0)
            && forall i :: 0 <= i < |row| ==> Honest(c.nullifier, InEntry(row[i]))
    ensures var row := OutSlots(c, p, r).value[t];
            && TokenTotal(Notes(OutEntries(row)), wanted) == (if TokenNumber(p.tokens[t]) == Some(wanted) then TotalOut(row) else 0)
            && forall i :: 0 <= i < |row| ==> Honest(c.commitment, OutEntry(row[i]))
  {
    hide ReadIns, ReadRow, OutRow, OutRows, TotalIn, TotalOut, TokenTotal, ParseBigInt, Recomputed, Authorised, MatchesAuthorised, AmountsConserve;
    var me := OwnerOf(p).value;
    InRowAt(c, me, p.tokens, r, |p.tokens|, t);
    OutRowAt(c, me, p, r, |p.tokens|, t);
    InRowEntries(c, me, p.tokens[t], r.inAmounts[t], r.inH0Ax[t], r.inH0Ay[t], r.inTimeStamps[t], |r.inAmounts[t]|, wanted);
    OutRowEntries(c, me, p, r, t, SelfSlots(p) + |p.recipientAddress|, wanted);
  }

  function InNotes(c: Crypto, p: Payload, r: Response): seq<Option<NoteParams>> {
    if InSlots(c, p, r).None? then [] else Notes(Flatten(InEntryRows(InSlots(c, p, r).value)))
  }

  function OutNotes(c: Crypto, p: Payload, r: Response): seq<Option<NoteParams>> {
    if OutSlots(c, p, r).None? then [] else Notes(Flatten(OutEntryRows(OutSlots(c, p, r).value)))
  }

  /** The notes behind an accepted exchange balance exactly, token by token, however the tokens are spelled and repeated. */
  lemma SlotNotesBalance(c: Crypto, p: Payload, r: Response, token: int)
    requires Checked(c, p, r)
    ensures ChangesParse(p) && TokenTotal(OutNotes(c, p, r), token) - TokenTotal(InNotes(c, p, r), token) == ChangeFor(p, token, |p.tokens|)
  {
    hide Checked, InSlots, OutSlots, SignedChange, TokenTotal, Flatten, ChangeFor, Notes;
    SlotRowsExist(c, p, r);
    var ins: seq<seq<Slot>>, outs: seq<seq<OutSlot>> := InSlots(c, p, r).value, OutSlots(c, p, r).value;
    BalanceOfFirst(c, p, r, token, |p.tokens|);
    assert ins[..|p.tokens|] == ins && outs[..|p.tokens|] == outs;
  }

  /** The opened notes have the contents of the notes behind the slots, or one of them collides. */
  lemma OpeningsAgree(c: Crypto, p: Payload, r: Response, hashed: Hashed, spent: seq<Option<NoteParams>>, created: seq<Option<NoteParams>>)
    requires Checked(c, p, r)
    requires Recomputed(p, InSlots(c, p, r).value, OutSlots(c, p, r).value) == Some(hashed)
    requires Opens(c.nullifier, spent, hashed.nullifiers) && Opens(c.commitment, created, hashed.commitments)
    ensures SameContents(spent, InNotes(c, p, r)) || SomeCollide(c.nullifier, spent, InNotes(c, p, r))
    ensures SameContents(created, OutNotes(c, p, r)) || SomeCollide(c.commitment, created, OutNotes(c, p, r))
  {
    hide Checked, InSlots, OutSlots, SignedChange, ParseAll, Flatten, Opens, SameContents, SomeCollide;
    SlotRowsExist(c, p, r);
    var ins: seq<seq<Slot>>, outs: seq<seq<OutSlot>> := InSlots(c, p, r).value, OutSlots(c, p, r).value;
    AllHonest(c, p, r);
    assert NullifierRows(ins) == HashRows(InEntryRows(ins)) by { NullifierRowsAreHashes(ins); }
    assert CommitmentRows(outs) == HashRows(OutEntryRows(outs)) by { CommitmentRowsAreHashes(outs); }
    FlattenHashes(InEntryRows(ins));
    FlattenHashes(OutEntryRows(outs));
    OneOpening(c.nullifier, Flatten(InEntryRows(ins)), hashed.nullifiers, spent);
    OneOpening(c.commitment, Flatten(OutEntryRows(outs)), hashed.commitments, created);
  }

  /**
   The signed hash commits to a balance. However its nullifiers and commitments are opened, either an opened note collides
   with the note behind its slot, or the created notes of any token exceed the spent ones by the changes signed for that
   token: up to multiples of the field order, in which the hashes work, and exactly when all amounts are field elements.
   */
  lemma SignedHashBalances(c: Crypto, p: Payload, r: Response, hashed: Hashed,
                           spent: seq<Option<NoteParams>>, created: seq<Option<NoteParams>>, token: int)
    requires Checked(c, p, r)
    requires Recomputed(p, InSlots(c, p, r).value, OutSlots(c, p, r).value) == Some(hashed)
    requires Opens(c.nullifier, spent, hashed.nullifiers) && Opens(c.commitment, created, hashed.commitments)
    ensures ParseBigInt(r.signedMessageHash) == c.signedHash(p, r.(signedMessageHash := ""), hashed)
    ensures ChangesParse(p) && hashed.amountChanges == WrappedChanges(p)
    ensures SomeCollide(c.nullifier, spent, InNotes(c, p, r)) || SomeCollide(c.commitment, created, OutNotes(c, p, r)) ||
            (&& Congruent(TokenTotal(created, token) - TokenTotal(spent, token), ChangeFor(p, token, |p.tokens|))
             && (FieldAmounts(spent) && FieldAmounts(created) && FieldAmounts(InNotes(c, p, r)) && FieldAmounts(OutNotes(c, p, r)) ==>
                   TokenTotal(created, token) - TokenTotal(spent, token) == ChangeFor(p, token, |p.tokens|)))
  {
    hide Checked, InSlots, OutSlots, InNotes, OutNotes, SignedChange, TokenTotal, ParseAll, Flatten, Opens, SameContents, SomeCollide,
         ChangeFor, FieldAmounts, Congruent;
    HashIsAnswered(c, p, r, hashed);
    SlotNotesBalance(c, p, r, token);
    OpeningsAgree(c, p, r, hashed, spent, created);
    if SameContents(spent, InNotes(c, p, r)) && SameContents(created, OutNotes(c, p, r)) {
      SameTotals(spent, InNotes(c, p, r), token);
      SameTotals(created, OutNotes(c, p, r), token);
      CongruentSums(TokenTotal(created, token), TokenTotal(OutNotes(c, p, r), token), TokenTotal(spent, token), TokenTotal(InNotes(c, p, r), token));
    }
  }

  lemma HashIsAnswered(c: Crypto, p: Payload, r: Response, hashed: Hashed)
    requires Checked(c, p, r) && Recomputed(p, InSlots(c, p, r).value, OutSlots(c, p, r).value) == Some(hashed)
    ensures ParseBigInt(r.signedMessageHash) == c.signedHash(p, r.(signedMessageHash := ""), hashed)
  {
    hide InSlots, OutSlots, ParseBigInt, Recomputed, Authorised, MatchesAuthorised, AmountsConserve;
  }

  lemma SlotRowsExist(c: Crypto, p: Payload, r: Response)
    requires Checked(c, p, r)
    ensures InSlots(c, p, r).Some? && OutSlots(c, p, r).Some? && ChangesParse(p)
    ensures |InSlots(c, p, r).value| == |OutSlots(c, p, r).value| == |p.tokens|
  {
    hide ReadIns, OutRows, ParseBigInt, ParseAll, Flatten, SignedChange, Authorised, MatchesAuthorised, AmountsConserve;
  }

  lemma AllHonest(c: Crypto, p: Payload, r: Response)
    requires Checked(c, p, r)
    ensures var ins, outs := Flatten(InEntryRows(InSlots(c, p, r).value)), Flatten(OutEntryRows(OutSlots(c, p, r).value));
            && (forall i :: 0 <= i < |ins| ==> Honest(c.nullifier, ins[i]))
            && (forall i :: 0 <= i < |outs| ==> Honest(c.commitment, outs[i]))
  {
    hide Checked, InSlots, OutSlots, Flatten, Honest, TokenTotal, TotalIn, TotalOut;
    SlotRowsExist(c, p, r);
    var ins: seq<seq<Slot>>, outs: seq<seq<OutSlot>> := InSlots(c, p, r).value, OutSlots(c, p, r).value;
    forall t, i | 0 <= t < |p.tokens| && 0 <= i < |InEntryRows(ins)[t]| ensures Honest(c.nullifier, InEntryRows(ins)[t][i]) {
      RowEntries(c, p, r, 0, t);
    }
    forall t, i | 0 <= t < |p.tokens| && 0 <= i < |OutEntryRows(outs)[t]| ensures Honest(c.commitment, OutEntryRows(outs)[t][i]) {
      RowEntries(c, p, r, 0, t);
    }
    FlattenHonest(c.nullifier, InEntryRows(ins));
    FlattenHonest(c.commitment, OutEntryRows(outs));
  }

  lemma NullifierRowsAreHashes(rows: seq<seq<Slot>>)
    ensures NullifierRows(rows) == HashRows(InEntryRows(rows))
  {
    assert forall t :: 0 <= t < |rows| ==> NullifierRow(rows[t]) == Hashes(InEntries(rows[t]));
  }

  lemma CommitmentRowsAreHashes(rows: seq<seq<OutSlot>>)
    ensures CommitmentRows(rows) == HashRows(OutEntryRows(rows))
  {
    assert forall t :: 0 <= t < |rows| ==> CommitmentRow(rows[t]) == Hashes(OutEntries(rows[t]));
  }
}
