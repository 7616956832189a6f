/** The checks on a prepared transaction are not too strict: an honest exchange, of any size, passes all of them. */
module HonestExchange {
  import opened Wrappers
  import opened Numbers
  import opened Enclave
  import opened EnclaveAmounts
  import opened PrepareTx
  import opened SignedBalance
  import opened Field

  function Decimal(n: int): string {
    Numbers.Text(n, 10)
  }

  type Row = seq<Option<NoteParams>>

  /** A recipient as the request names one: the stealth address, the coordinates of the point, and what follows them. */
  datatype Recipient = Recipient(address: string, x: string, y: string, tail: string)

  /**
   The notes spent, the own notes created and the notes given to recipients, token by token, with empty slots; the recipients; the time
   stamp of the outputs; and the hash answered.
   */
  datatype Exchange = Exchange(spent: seq<Row>, created: seq<Row>, given: seq<Row>, recipients: seq<Recipient>, timeStamp: string, hash: int)

  function AmountOf(note: Option<NoteParams>): int { if note.None? then 0 else note.value.amount }

  function PointOf(note: Option<NoteParams>): (int, int) { if note.None? then (0, 0) else note.value.h0 }

  function TimeOf(note: Option<NoteParams>): string { if note.None? then "" else note.value.timeStamp }

  function Amounts(row: Row): seq<string> { seq(|row|, i requires 0 <= i < |row| => Decimal(AmountOf(row[i]))) }

  function Xs(row: Row): seq<string> { seq(|row|, i requires 0 <= i < |row| => Decimal(PointOf(row[i]).0)) }

  function Ys(row: Row): seq<string> { seq(|row|, i requires 0 <= i < |row| => Decimal(PointOf(row[i]).1)) }

  function Times(row: Row): seq<string> { seq(|row|, i requires 0 <= i < |row| => TimeOf(row[i])) }

  function Rows(rows: seq<Row>, column: Row -> seq<string>): seq<seq<string>> {
    seq(|rows|, t requires 0 <= t < |rows| => column(rows[t]))
  }

  /** The response that reports the exchange. */
  function Answer(x: Exchange): Response {
    Response(Rows(x.spent, Amounts), Rows(x.spent, Xs), Rows(x.spent, Ys), Rows(x.spent, Times),
             Rows(x.created, Amounts), Rows(x.created, Xs), Rows(x.created, Ys), x.timeStamp, Decimal(x.hash))
  }

  function SumOf(row: Row): int {
    if row == [] then 0 else SumOf(row[..|row| - 1]) + AmountOf(row[|row| - 1])
  }

  /** A note of the token and owner, worth something, that can be spent. */
  predicate SpendableNote(c: Crypto, me: NoteOwner, token: string, note: NoteParams) {
    note.owner == me && note.token == token && note.amount != 0 && c.commitment(note).Some? && c.nullifier(note).Some?
  }

  predicate CreatableNote(c: Crypto, me: NoteOwner, token: string, timeStamp: string, note: NoteParams) {
    note.owner == me && note.token == token && note.amount != 0 && note.timeStamp == timeStamp && c.commitment(note).Some?
  }

  /** A note for a recipient, at the stealth address and the point its text names. */
  predicate GivenNote(c: Crypto, to: Recipient, token: string, timeStamp: string, note: NoteParams) {
    && note.owner == Stealth(to.address) && Some(note.h0.0) == ParseBigInt(to.x) && Some(note.h0.1) == ParseBigInt(to.y)
    && note.token == token && note.amount != 0 && note.timeStamp == timeStamp && c.commitment(note).Some?
  }

  function InSlotOf(c: Crypto, note: Option<NoteParams>): Slot {
    if note.None? || c.commitment(note.value).None? || c.nullifier(note.value).None? then Empty
    else Held(note.value, c.commitment(note.value).value, c.nullifier(note.value).value)
  }

  function OutSlotOf(c: Crypto, note: Option<NoteParams>): OutSlot {
    if note.None? || c.commitment(note.value).None? then Nothing else Created(note.value, c.commitment(note.value).value)
  }

  function InRowOf(c: Crypto, row: Row): seq<Slot> { seq(|row|, i requires 0 <= i < |row| => InSlotOf(c, row[i])) }

  function InsOf(c: Crypto, x: Exchange): seq<seq<Slot>> { seq(|x.spent|, t requires 0 <= t < |x.spent| => InRowOf(c, x.spent[t])) }

  function OutRowOf(c: Crypto, row: Row): seq<OutSlot> { seq(|row|, i requires 0 <= i < |row| => OutSlotOf(c, row[i])) }

  /** Of every token, the own output slots, then the recipients'. */
  function OutsOf(c: Crypto, x: Exchange): seq<seq<OutSlot>>
    requires |x.created| == |x.given|
  {
    seq(|x.created|, t requires 0 <= t < |x.created| => OutRowOf(c, x.created[t] + x.given[t]))
  }

  /** The request names the exchange's recipients, with what each is given of each token. */
  predicate NamesRecipients(p: Payload, x: Exchange) {
    && |p.recipientAddress| == |p.recipientAmounts| == |x.recipients|
    && |x.given| == |p.tokens| && (forall t :: 0 <= t < |x.given| ==> |x.given[t]| == |x.recipients|)
    && (forall k :: 0 <= k < |x.recipients| ==> RecipientNamed(p, x.recipients[k], k))
    && forall t, k :: 0 <= t < |x.given| && 0 <= k < |x.recipients| ==> AmountGiven(p, x.given[t][k], t, k)
  }

  predicate RecipientNamed(p: Payload, to: Recipient, k: nat)
    requires k < |p.recipientAddress|
  {
    NamesRecipient(p.recipientAddress[k], to.address, to.x, to.y, to.tail) && ParseBigInt(to.x).Some? && ParseBigInt(to.y).Some?
  }

  predicate AmountGiven(p: Payload, note: Option<NoteParams>, t: nat, k: nat)
    requires k < |p.recipientAmounts|
  {
    t < |p.recipientAmounts[k]| && ParseBigInt(p.recipientAmounts[k][t]) == Some(AmountOf(note))
  }

  /** The exchange fits the request: the caller's own notes, as many own outputs as asked for, and the changes asked for. */
  predicate Fits(c: Crypto, p: Payload, x: Exchange) {
    && OwnerOf(p).Some?
    && |p.amountChanges| == |p.tokens| == |x.spent| == |x.created|
    && (forall t, i :: 0 <= t < |x.spent| && 0 <= i < |x.spent[t]| && x.spent[t][i].Some? ==>
          SpendableNote(c, OwnerOf(p).value, p.tokens[t], x.spent[t][i].value))
    && (forall t :: 0 <= t < |x.created| ==> |x.created[t]| == SelfSlots(p))
    && (forall t, i :: 0 <= t < |x.created| && 0 <= i < |x.created[t]| && x.created[t][i].Some? ==>
          CreatableNote(c, OwnerOf(p).value, p.tokens[t], x.timeStamp, x.created[t][i].value))
    && NamesRecipients(p, x)
    && (forall t, k :: 0 <= t < |x.given| && 0 <= k < |x.given[t]| && x.given[t][k].Some? ==>
          GivenNote(c, x.recipients[k], p.tokens[t], x.timeStamp, x.given[t][k].value))
    && (forall t :: 0 <= t < |p.tokens| ==> ParseBigInt(p.amountChanges[t]) == Some(SumOf(x.created[t]) - SumOf(x.spent[t])))
    && AsRequested(p, Answer(x))
  }

  lemma ParseDecimal(n: int)
    ensures ParseBigInt(Decimal(n)) == Some(n)
  {
    hide ParseBigInt, Numbers.Text;
    DecimalRoundTrip(n);
  }

  lemma SlotRead(c: Crypto, me: NoteOwner, token: string, note: Option<NoteParams>)
    requires note.Some? ==> SpendableNote(c, me, token, note.value)
    ensures ReadSlot(c, me, token, Decimal(AmountOf(note)), Decimal(PointOf(note).0), Decimal(PointOf(note).1), TimeOf(note)) == Some(InSlotOf(c, note))
  {
    hide ParseBigInt, Decimal;
    ParseDecimal(AmountOf(note));
    ParseDecimal(PointOf(note).0);
    ParseDecimal(PointOf(note).1);
  }

  lemma OwnOutRead(c: Crypto, me: NoteOwner, token: string, timeStamp: string, note: Option<NoteParams>)
    requires note.Some? ==> CreatableNote(c, me, token, timeStamp, note.value)
    ensures ReadOut(c, me, token, Decimal(AmountOf(note)), Decimal(PointOf(note).0), Decimal(PointOf(note).1), timeStamp) == Some(OutSlotOf(c, note))
  {
    hide ParseBigInt, Decimal;
    ParseDecimal(AmountOf(note));
    ParseDecimal(PointOf(note).0);
    ParseDecimal(PointOf(note).1);
  }

  lemma {:induction false} RowRead(c: Crypto, me: NoteOwner, token: string, row: Row, n: nat)
    requires n <= |row| && forall i :: 0 <= i < |row| && row[i].Some? ==> SpendableNote(c, me, token, row[i].value)
    ensures ReadRow(c, me, token, Amounts(row), Xs(row), Ys(row), Times(row), n) == Some(InRowOf(c, row)[..n])
    decreases n
  {
    hide ReadSlot, SpendableNote, InSlotOf, Decimal;
    if n > 0 {
      RowRead(c, me, token, row, n - 1);
      SlotRead(c, me, token, row[n - 1]);
      assert InRowOf(c, row)[..n] == InRowOf(c, row)[..n - 1] + [InSlotOf(c, row[n - 1])];
    }
  }

  lemma {:induction false} InsRead(c: Crypto, p: Payload, x: Exchange, n: nat)
    requires Fits(c, p, x) && n <= |p.tokens|
    ensures InShape(p.tokens, Answer(x))
    ensures ReadIns(c, OwnerOf(p).value, p.tokens, Answer(x), n) == Some(InsOf(c, x)[..n])
    decreases n
  {
    hide ReadRow, Amounts, Xs, Ys, Times, OwnerOf, ParseBigInt, SpendableNote, CreatableNote, AsRequested, NamesRecipients, SumOf;
    if n > 0 {
      var t := n - 1;
      InsRead(c, p, x, t);
      RowLengths(x.spent[t]);
      RowRead(c, OwnerOf(p).value, p.tokens[t], x.spent[t], |x.spent[t]|);
      assert InRowOf(c, x.spent[t])[..|x.spent[t]|] == InRowOf(c, x.spent[t]);
      assert InsOf(c, x)[..n] == InsOf(c, x)[..t] + [InRowOf(c, x.spent[t])];
    }
  }

  lemma RowLengths(row: Row)
    ensures |Amounts(row)| == |Xs(row)| == |Ys(row)| == |Times(row)| == |row|
  {
  }

  lemma GivenRead(c: Crypto, p: Payload, x: Exchange, t: nat, k: nat)
    requires Fits(c, p, x) && t < |p.tokens| && k < |p.recipientAddress|
    ensures RecipientSlot(c, p, x.timeStamp, t, k) == Some(OutSlotOf(c, x.given[t][k]))
  {
    hide ParseBigInt, OwnerOf, SpendableNote, CreatableNote, AsRequested, SumOf, Text.Split, NamesRecipient;
    var to, parts := x.recipients[k], Text.Split(p.recipientAddress[k], ",");
    assert RecipientNamed(p, to, k) && AmountGiven(p, x.given[t][k], t, k);
    NamedIsSplit(p.recipientAddress[k], to.address, to.x, to.y, to.tail);
    assert [to.address, to.x, to.y][0] == parts[0] && [to.address, to.x, to.y][1] == parts[1] && [to.address, to.x, to.y][2] == parts[2];
    if x.given[t][k].Some? { assert GivenNote(c, to, p.tokens[t], x.timeStamp, x.given[t][k].value); }
  }

  lemma {:induction false} OutRowRead(c: Crypto, p: Payload, x: Exchange, t: nat, n: nat)
    requires Fits(c, p, x) && t < |p.tokens| && n <= SelfSlots(p) + |p.recipientAddress|
    ensures OutShape(p, Answer(x)) && OutRowShape(p, Answer(x), t)
    ensures OutRow(c, OwnerOf(p).value, p, Answer(x), t, n) == Some(OutRowOf(c, x.created[t] + x.given[t])[..n])
    decreases n
  {
    hide ReadOut, OwnerOf, ParseBigInt, SpendableNote, CreatableNote, GivenNote, AsRequested, RecipientSlot, SumOf, Decimal, OutSlotOf, Times,
         RecipientNamed, AmountGiven;
    var r, row := Answer(x), OutRowOf(c, x.created[t] + x.given[t]);
    assert r.outAmounts[t] == Amounts(x.created[t]) && r.outH0Ax[t] == Xs(x.created[t]) && r.outH0Ay[t] == Ys(x.created[t]);
    if n > 0 {
      var i := n - 1;
      OutRowRead(c, p, x, t, i);
      if i < SelfSlots(p) {
        OwnOutRead(c, OwnerOf(p).value, p.tokens[t], x.timeStamp, x.created[t][i]);
      } else {
        GivenRead(c, p, x, t, i - SelfSlots(p));
      }
      assert OutSlotAt(c, OwnerOf(p).value, p, r, t, i) == Some(row[i]);
      assert row[..n] == row[..i] + [row[i]];
    }
  }

  lemma {:induction false} OutsRead(c: Crypto, p: Payload, x: Exchange, n: nat)
    requires Fits(c, p, x) && n <= |p.tokens|
    ensures OutShape(p, Answer(x))
    ensures OutRows(c, OwnerOf(p).value, p, Answer(x), n) == Some(OutsOf(c, x)[..n])
    decreases n
  {
    hide OutRow, OwnerOf, ParseBigInt, SpendableNote, CreatableNote, GivenNote, AsRequested, RecipientSlot, SumOf, Amounts, Xs, Ys, Times, OutRowOf,
         RecipientNamed, AmountGiven;
    if n > 0 {
      var t := n - 1;
      OutsRead(c, p, x, t);
      OutRowRead(c, p, x, t, SelfSlots(p) + |p.recipientAddress|);
      WholeRow(c, p, x, t);
      assert OutsOf(c, x)[..n] == OutsOf(c, x)[..t] + [OutRowOf(c, x.created[t] + x.given[t])];
    }
  }

  lemma WholeRow(c: Crypto, p: Payload, x: Exchange, t: nat)
    requires Fits(c, p, x) && t < |p.tokens|
    ensures OutRowOf(c, x.created[t] + x.given[t])[..SelfSlots(p) + |p.recipientAddress|] == OutRowOf(c, x.created[t] + x.given[t])
  {
    hide OwnerOf, ParseBigInt, SpendableNote, CreatableNote, GivenNote, AsRequested, RecipientSlot, SumOf;
  }

  lemma {:induction false} AmountsSum(row: Row, n: nat)
    requires n <= |row|
    ensures TextSum(Amounts(row), n) == Some(SumOf(row[..n]))
    decreases n
  {
    hide ParseBigInt, Decimal;
    if n > 0 {
      AmountsSum(row, n - 1);
      ParseDecimal(AmountOf(row[n - 1]));
      assert row[..n][..n - 1] == row[..n - 1];
    }
  }

  lemma AmountsBalance(c: Crypto, p: Payload, x: Exchange)
    requires Fits(c, p, x)
    ensures AmountsConserve(p, Answer(x))
  {
    hide GivenNote, OwnerOf, ParseBigInt, SpendableNote, CreatableNote, GivenNote, AsRequested, RecipientSlot, SumOf, TextSum, Xs, Ys, Times, NamesRecipients;
    var r := Answer(x);
    forall t | 0 <= t < |p.tokens|
      ensures SelfSlots(p) <= |r.outAmounts[t]| && Balanced(r.inAmounts[t], r.outAmounts[t], SelfSlots(p), p.amountChanges[t])
    {
      RowLengths(x.spent[t]);
      RowLengths(x.created[t]);
      AmountsSum(x.spent[t], |x.spent[t]|);
      AmountsSum(x.created[t], SelfSlots(p));
      assert x.spent[t][..|x.spent[t]|] == x.spent[t] && x.created[t][..SelfSlots(p)] == x.created[t];
    }
  }

  // --- The data hashed.

  /** What the exchange changes of a token: all it creates, for the caller and for recipients, less what it spends. */
  function ChangeOf(x: Exchange, t: nat): int
    requires t < |x.created| == |x.given| == |x.spent|
  {
    SumOf(x.created[t]) + SumOf(x.given[t]) - SumOf(x.spent[t])
  }

  /** The numbers of all nullifiers and commitments of the exchange, zeros for empty slots, and its changes. */
  predicate DataOf(c: Crypto, x: Exchange, hashed: Hashed)
    requires |x.created| == |x.given| == |x.spent|
  {
    && FlatNumbers(NullifierRows(InsOf(c, x)), hashed.nullifiers) && FlatNumbers(CommitmentRows(OutsOf(c, x)), hashed.commitments)
    && |hashed.amountChanges| == |x.spent|
    && forall t :: 0 <= t < |x.spent| ==> hashed.amountChanges[t] == ChangeOf(x, t) + (if ChangeOf(x, t) < 0 then FIELD_P else 0)
  }

  lemma {:induction false} GivenSum(c: Crypto, p: Payload, x: Exchange, t: nat, n: nat)
    requires Fits(c, p, x) && t < |p.tokens| && n <= |p.recipientAmounts|
    ensures RecipientSum(p, t, n) == Some(SumOf(x.given[t][..n]))
    decreases n
  {
    hide ParseBigInt, OwnerOf, SpendableNote, CreatableNote, GivenNote, AsRequested, RecipientNamed;
    if n > 0 {
      GivenSum(c, p, x, t, n - 1);
      assert AmountGiven(p, x.given[t][n - 1], t, n - 1);
      assert x.given[t][..n][..n - 1] == x.given[t][..n - 1];
    }
  }

  lemma NumbersDetermine(rows: seq<seq<string>>, values: seq<int>)
    requires FlatNumbers(rows, values)
    ensures ParseAll(Flatten(rows)) == Some(values)
  {
    hide ParseBigInt, ParseAll, Flatten, Offset;
    forall t, i | 0 <= t < |rows| && 0 <= i < |rows[t]| ensures ParseBigInt(rows[t][i]).Some? { assert NumberAt(rows, values, t, i); }
    FlatFailsIff(rows);
    FlatNumbersHold(rows);
    var parsed: seq<int> := ParseAll(Flatten(rows)).value;
    FlattenLength(rows);
    forall k | 0 <= k < |values| ensures parsed[k] == values[k] {
      var t, i := FlattenFromOffset(rows, k);
      assert NumberAt(rows, values, t, i) && NumberAt(rows, parsed, t, i);
    }
    assert parsed == values;
  }

  lemma {:induction false} FlattenFromOffset<T>(rows: seq<seq<T>>, k: nat) returns (t: nat, i: nat)
    requires k < Offset(rows, |rows|)
    ensures t < |rows| && i < |rows[t]| && Offset(rows, t) + i == k
    decreases |rows|
  {
    var n := |rows| - 1;
    OffsetOfPrefix(rows, n, n);
    if k < Offset(rows, n) {
      t, i := FlattenFromOffset(rows[..n], k);
      OffsetOfPrefix(rows, n, t);
    } else {
      t, i := n, k - Offset(rows, n);
    }
  }

  lemma DataIsRecomputed(c: Crypto, p: Payload, x: Exchange, hashed: Hashed)
    requires Fits(c, p, x) && DataOf(c, x, hashed)
    ensures Recomputed(p, InsOf(c, x), OutsOf(c, x)) == Some(hashed)
  {
    hide ParseBigInt, OwnerOf, SpendableNote, CreatableNote, GivenNote, AsRequested, RecipientNamed, AmountGiven, Answer, FlatNumbers, InsOf, OutsOf,
         ParseAll, Flatten, SumOf, RecipientSum;
    NumbersDetermine(NullifierRows(InsOf(c, x)), hashed.nullifiers);
    NumbersDetermine(CommitmentRows(OutsOf(c, x)), hashed.commitments);
    forall t | 0 <= t < |p.tokens| ensures SignedChange(p, t) == Some(ChangeOf(x, t)) {
      GivenSum(c, p, x, t, |p.recipientAmounts|);
      assert x.given[t][..|p.recipientAmounts|] == x.given[t];
    }
    assert WrappedChanges(p) == hashed.amountChanges;
  }

  /**
   For any request, and any exchange that fits it with as many tokens, slots and recipients as they have: the response that
   reports it passes once the spend set matches and the answered hash is that of its data.
   */
  lemma HonestExchangeIsChecked(c: Crypto, p: Payload, x: Exchange, hashed: Hashed)
    requires Fits(c, p, x) && DataOf(c, x, hashed) && c.signedHash(p, Unsigned(Answer(x)), hashed) == Some(x.hash)
    requires Authorised(c, p).Some? && MatchesAuthorised(Spent(InsOf(c, x)), Authorised(c, p).value)
    ensures InSlots(c, p, Answer(x)) == Some(InsOf(c, x)) && OutSlots(c, p, Answer(x)) == Some(OutsOf(c, x))
    ensures Recomputed(p, InsOf(c, x), OutsOf(c, x)) == Some(hashed) && Checked(c, p, Answer(x))
  {
    hide ParseBigInt, Decimal, OwnerOf, ReadIns, OutRows, Recomputed, AmountsConserve, Spent, Authorised, MatchesAuthorised, Rows, InsOf, OutsOf,
         SpendableNote, CreatableNote, GivenNote, AsRequested, NamesRecipients, SumOf, DataOf;
    InsRead(c, p, x, |p.tokens|);
    OutsRead(c, p, x, |p.tokens|);
    AllRows(c, p, x);
    AmountsBalance(c, p, x);
    DataIsRecomputed(c, p, x, hashed);
    ParseDecimal(x.hash);
  }

  /** With a stealth pair of the caller's it is accepted. */
  lemma HonestExchangeIsAccepted(c: Crypto, p: Payload, x: Exchange, hashed: Hashed)
    requires Fits(c, p, x) && DataOf(c, x, hashed) && c.signedHash(p, Unsigned(Answer(x)), hashed) == Some(x.hash)
    requires Authorised(c, p).Some? && MatchesAuthorised(Spent(InsOf(c, x)), Authorised(c, p).value)
    requires c.stealthPairOwned(p, Unsigned(Answer(x)))
    ensures Accepted(c, p, Answer(x))
  {
    hide Fits, Checked, Recomputed, Authorised, MatchesAuthorised, Spent, InsOf, OutsOf, Answer, DataOf;
    HonestExchangeIsChecked(c, p, x, hashed);
  }

  lemma AllRows(c: Crypto, p: Payload, x: Exchange)
    requires Fits(c, p, x)
    ensures InsOf(c, x)[..|p.tokens|] == InsOf(c, x) && OutsOf(c, x)[..|p.tokens|] == OutsOf(c, x)
  {
    hide OwnerOf, ParseBigInt, SpendableNote, CreatableNote, GivenNote, AsRequested, RecipientSlot, SumOf;
  }

  /**
   The set comparison lets one authorised note be spent in two slots: such a response is accepted, counts the note's amount
   twice and lists two slots for one commitment.
   */
  lemma OneNoteInTwoSlotsIsAccepted(c: Crypto, p: Payload, x: Exchange, note: NoteParams, hashed: Hashed)
    requires Fits(c, p, x) && DataOf(c, x, hashed) && c.signedHash(p, Unsigned(Answer(x)), hashed) == Some(x.hash)
    requires c.stealthPairOwned(p, Unsigned(Answer(x))) && x.spent == [[Some(note), Some(note)]]
    requires InSlotOf(c, Some(note)).Held? && p.inputCommitments == Some([InSlotOf(c, Some(note)).commitment])
    ensures Accepted(c, p, Answer(x)) && |Authorised(c, p).value.value| == 1
    ensures InSlots(c, p, Answer(x)) == Some([[InSlotOf(c, Some(note)), InSlotOf(c, Some(note))]])
    ensures TotalIn(InSlots(c, p, Answer(x)).value[0]) == 2 * note.amount && |SpentList(InSlots(c, p, Answer(x)).value)| == 2
  {
    hide ParseBigInt, OwnerOf, Recomputed, Accepted, InSlots, OutSlots, AsRequested, NamesRecipients, Answer, OutsOf, DataOf;
    assert SpendableNote(c, OwnerOf(p).value, p.tokens[0], x.spent[0][0].value);
    var slot := InSlotOf(c, Some(note));
    assert InRowOf(c, x.spent[0]) == [slot, slot];
    assert InsOf(c, x) == [[slot, slot]];
    TwoSlots(slot);
    HonestExchangeIsChecked(c, p, x, hashed);
    HonestExchangeIsAccepted(c, p, x, hashed);
  }

  lemma TwoSlots(slot: Slot)
    requires slot.Held?
    ensures Spent([[slot, slot]]) == {slot.commitment} && |SpentList([[slot, slot]])| == 2
    ensures TotalIn([slot, slot]) == 2 * slot.note.amount
  {
    assert [[slot, slot]][0][0].Held?;
    assert [[slot, slot]][..0] == [] && Flatten([[slot, slot]]) == [] + [slot, slot] == [slot, slot];
    assert [slot, slot][..1] == [slot] && [slot][..0] == [];
    assert HeldCommitments([slot]) == [] + [slot.commitment];
    assert TotalIn([slot]) == slot.note.amount;
  }
}
