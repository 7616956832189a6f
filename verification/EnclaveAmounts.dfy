/** The output notes of a prepared transaction, its balance check and the amount changes to be signed. */
module EnclaveAmounts {
  import opened Wrappers
  import opened Numbers
  import opened Enclave
  import Text

  // --- Output notes.

  datatype OutSlot = Nothing | Created(note: NoteParams, commitment: string)

  function CommitmentOf(slot: OutSlot): string {
    if slot.Nothing? then "0" else slot.commitment
  }

  function ReadOut(c: Crypto, owner: NoteOwner, token: string, amountText: string, x: string, y: string, timeStamp: string): Option<OutSlot> {
    var amount, hx, hy := ParseBigInt(amountText), ParseBigInt(x), ParseBigInt(y);
    if amount.None? || hx.None? || hy.None? then None
    else if amount.value == 0 then Some(Nothing)
    else
      var note := NoteParams(amount.value, token, owner, (hx.value, hy.value), timeStamp);
      if c.commitment(note).None? then None else Some(Created(note, c.commitment(note).value))
  }

  /** How many leading output slots of every row are the caller's own. */
  function SelfSlots(p: Payload): nat {
    if p.selfOutputAmounts.None? then 1 else |p.selfOutputAmounts.value|
  }

  predicate OutShape(p: Payload, r: Response) {
    |p.recipientAddress| == |p.recipientAmounts| && |r.outAmounts| == |r.outH0Ax| == |r.outH0Ay| == |p.tokens|
  }

  predicate OutRowShape(p: Payload, r: Response, t: nat)
    requires OutShape(p, r) && t < |p.tokens|
  {
    SelfSlots(p) <= |r.outAmounts[t]| && SelfSlots(p) <= |r.outH0Ax[t]| && SelfSlots(p) <= |r.outH0Ay[t]|
  }

  /** Own slots come from the response, recipient slots from the caller's own request; a request row too short for its tokens is refused. */
  function OutSlotAt(c: Crypto, me: NoteOwner, p: Payload, r: Response, t: nat, i: nat): Option<OutSlot>
    requires OutShape(p, r) && t < |p.tokens| && OutRowShape(p, r, t) && i < SelfSlots(p) + |p.recipientAddress|
  {
    if i < SelfSlots(p) then ReadOut(c, me, p.tokens[t], r.outAmounts[t][i], r.outH0Ax[t][i], r.outH0Ay[t][i], r.outTimeStamp)
    else RecipientSlot(c, p, r.outTimeStamp, t, i - SelfSlots(p))
  }

  function RecipientSlot(c: Crypto, p: Payload, timeStamp: string, t: nat, k: nat): Option<OutSlot>
    requires t < |p.tokens| && k < |p.recipientAddress| == |p.recipientAmounts|
  {
    var parts := Text.Split(p.recipientAddress[k], ",");
    if |parts| < 3 || t >= |p.recipientAmounts[k]| then None
    else ReadOut(c, Stealth(parts[0]), p.tokens[t], p.recipientAmounts[k][t], parts[1], parts[2], timeStamp)
  }

  /** The first n output slots of a token. */
  function OutRow(c: Crypto, me: NoteOwner, p: Payload, r: Response, t: nat, n: nat): (row: Option<seq<OutSlot>>)
    requires OutShape(p, r) && t < |p.tokens| && OutRowShape(p, r, t) && n <= SelfSlots(p) + |p.recipientAddress|
    ensures row.Some? ==> |row.value| == n
    decreases n
  {
    if n == 0 then Some([])
    else
      var rest, slot := OutRow(c, me, p, r, t, n - 1), OutSlotAt(c, me, p, r, t, n - 1);
      if rest.None? || slot.None? then None else Some(rest.value + [slot.value])
  }

  /** The output slots of the first n tokens. */
  function OutRows(c: Crypto, me: NoteOwner, p: Payload, r: Response, n: nat): (rows: Option<seq<seq<OutSlot>>>)
    requires OutShape(p, r) && n <= |p.tokens|
    ensures rows.Some? ==> |rows.value| == n
    decreases n
  {
    if n == 0 then Some([])
    else
      var rest := OutRows(c, me, p, r, n - 1);
      if rest.None? || !OutRowShape(p, r, n - 1) then None
      else
        var row := OutRow(c, me, p, r, n - 1, SelfSlots(p) + |p.recipientAddress|);
        if row.None? then None else Some(rest.value + [row.value])
  }

  function OutSlots(c: Crypto, p: Payload, r: Response): Option<seq<seq<OutSlot>>> {
    if !OutShape(p, r) || OwnerOf(p).None? then None else OutRows(c, OwnerOf(p).value, p, r, |p.tokens|)
  }

  function CommitmentRow(row: seq<OutSlot>): seq<string> {
    seq(|row|, i requires 0 <= i < |row| => CommitmentOf(row[i]))
  }

  function CommitmentRows(rows: seq<seq<OutSlot>>): seq<seq<string>> {
    seq(|rows|, i requires 0 <= i < |rows| => CommitmentRow(rows[i]))
  }

  /** The entry for an output slot: a zero for no amount, else the commitment of the note the texts name. */
  predicate IsCommitmentEntry(c: Crypto, entry: string, owner: NoteOwner, token: string, amount: string, x: string, y: string, timeStamp: string) {
    && ParseBigInt(amount).Some? && ParseBigInt(x).Some? && ParseBigInt(y).Some?
    && if ParseBigInt(amount) == Some(0) then entry == "0"
       else
         c.commitment(NoteParams(ParseBigInt(amount).value, token, owner, (ParseBigInt(x).value, ParseBigInt(y).value), timeStamp)) == Some(entry)
  }

  /** A recipient's text: the stealth address and the two coordinates of the point between commas, then whatever follows another comma. */
  predicate NamesRecipient(text: string, address: string, x: string, y: string, tail: string) {
    && ',' !in address && ',' !in x && ',' !in y && (tail != "" ==> tail[0] == ',')
    && text == address + "," + x + "," + y + tail
  }

  predicate OutLengths(p: Payload, r: Response, own: nat) {
    && |p.recipientAddress| == |p.recipientAmounts|
    && |r.outAmounts| == |r.outH0Ax| == |r.outH0Ay| == |p.tokens|
    && (forall t :: 0 <= t < |p.tokens| ==> own <= |r.outAmounts[t]| && own <= |r.outH0Ax[t]| && own <= |r.outH0Ay[t]|)
    && forall k :: 0 <= k < |p.recipientAddress| && |p.tokens| > 0 ==> |p.tokens| <= |p.recipientAmounts[k]|
  }

  /** Own entries first, as many as amounts are requested or one, made of the caller's keys and the slot's texts; then one entry a recipient. */
  predicate OwnEntries(c: Crypto, p: Payload, me: NoteOwner, r: Response, own: nat, rows: seq<seq<string>>) {
    && OutLengths(p, r, own) && IsCaller(p, me)
    && own == (match p.selfOutputAmounts case Some(amounts) => |amounts| case None => 1)
    && |rows| == |p.tokens| && (forall t :: 0 <= t < |rows| ==> |rows[t]| == own + |p.recipientAddress|)
    && forall t, i :: 0 <= t < |rows| && 0 <= i < own ==>
         IsCommitmentEntry(c, rows[t][i], me, p.tokens[t], r.outAmounts[t][i], r.outH0Ax[t][i], r.outH0Ay[t][i], r.outTimeStamp)
  }

  /** A recipient's text names someone, and the entry is made out to that stealth address at that point. */
  ghost predicate RecipientEntry(c: Crypto, p: Payload, r: Response, t: nat, k: nat, row: seq<string>, own: nat)
    requires t < |p.tokens| && k < |p.recipientAddress| == |p.recipientAmounts| && t < |p.recipientAmounts[k]| && own + k < |row|
  {
    && (exists address, x, y, tail :: NamesRecipient(p.recipientAddress[k], address, x, y, tail))
    && forall address, x, y, tail :: NamesRecipient(p.recipientAddress[k], address, x, y, tail) ==>
         IsCommitmentEntry(c, row[own + k], Stealth(address), p.tokens[t], p.recipientAmounts[k][t], x, y, r.outTimeStamp)
  }

  ghost predicate RecipientEntries(c: Crypto, p: Payload, r: Response, own: nat, rows: seq<seq<string>>) {
    && OutLengths(p, r, own)
    && |rows| == |p.tokens| && (forall t :: 0 <= t < |rows| ==> |rows[t]| == own + |p.recipientAddress|)
    && forall t, k :: 0 <= t < |rows| && 0 <= k < |p.recipientAddress| ==> RecipientEntry(c, p, r, t, k, rows[t], own)
  }

  method VerifyComputeOutCommitments(c: Crypto, p: Payload, r: Response) returns (rows: Option<seq<seq<string>>>)
    ensures rows == if OutSlots(c, p, r).Some? then Some(CommitmentRows(OutSlots(c, p, r).value)) else None
    ensures rows.Some? ==> exists me, own: nat :: OwnEntries(c, p, me, r, own, rows.value) && RecipientEntries(c, p, r, own, rows.value)
  {
    hide ParseBigInt, OutRow, OwnEntries, RecipientEntries;
    if !OutShape(p, r) {
      return None;
    }
    var me := OwnerOf(p);
    if me.None? {
      return None;
    }
    var result: seq<seq<string>> := [];
    ghost var read: seq<seq<OutSlot>> := [];
    for t := 0 to |p.tokens|
      invariant OutRows(c, me.value, p, r, t) == Some(read) && result == CommitmentRows(read)
    {
      if !OutRowShape(p, r, t) {
        OutRowsFail(c, me.value, p, r, t + 1);
        return None;
      }
      var row := OutCommitmentRow(c, me.value, p, r, t);
      if row.None? {
        OutRowsFail(c, me.value, p, r, t + 1);
        return None;
      }
      read := read + [OutRow(c, me.value, p, r, t, SelfSlots(p) + |p.recipientAddress|).value];
      result := result + [row.value];
    }
    OutEntriesHold(c, p, r);
    rows := Some(result);
  }


  lemma {:induction false} OutRowsFail(c: Crypto, me: NoteOwner, p: Payload, r: Response, n: nat)
    requires OutShape(p, r) && n <= |p.tokens| && OutRows(c, me, p, r, n).None?
    ensures OutRows(c, me, p, r, |p.tokens|).None?
    decreases |p.tokens| - n
  {
    hide OutRow;
    if n < |p.tokens| { OutRowsFail(c, me, p, r, n + 1); }
  }

  lemma {:induction false} OutRowAt(c: Crypto, me: NoteOwner, p: Payload, r: Response, n: nat, t: nat)
    requires OutShape(p, r) && t < n <= |p.tokens| && OutRows(c, me, p, r, n).Some?
    ensures OutRowShape(p, r, t)
    ensures Some(OutRows(c, me, p, r, n).value[t]) == OutRow(c, me, p, r, t, SelfSlots(p) + |p.recipientAddress|)
    decreases n
  {
    hide OutRow;
    if t < n - 1 { OutRowAt(c, me, p, r, n - 1, t); }
  }

  lemma {:induction false} OutSlotIs(c: Crypto, me: NoteOwner, p: Payload, r: Response, t: nat, n: nat, i: nat)
    requires OutShape(p, r) && t < |p.tokens| && OutRowShape(p, r, t) && i < n <= SelfSlots(p) + |p.recipientAddress|
    requires OutRow(c, me, p, r, t, n).Some?
    ensures OutSlotAt(c, me, p, r, t, i) == Some(OutRow(c, me, p, r, t, n).value[i])
    decreases n
  {
    hide OutSlotAt;
    if i < n - 1 { OutSlotIs(c, me, p, r, t, n - 1, i); }
  }

  lemma OutIs(c: Crypto, owner: NoteOwner, token: string, amount: string, x: string, y: string, timeStamp: string)
    ensures var slot := ReadOut(c, owner, token, amount, x, y, timeStamp);
            slot.Some? ==> IsCommitmentEntry(c, CommitmentOf(slot.value), owner, token, amount, x, y, timeStamp)
  {
    hide ParseBigInt;
  }

  lemma NamedIsSplit(text: string, address: string, x: string, y: string, tail: string)
    requires NamesRecipient(text, address, x, y, tail)
    ensures |Text.Split(text, ",")| >= 3 && Text.Split(text, ",")[..3] == [address, x, y]
  {
    hide Text.Split;
    var last := y + tail;
    assert text == address + [','] + (x + [','] + last);
    Text.SplitFirst(address, x + [','] + last, ',');
    Text.SplitFirst(x, last, ',');
    if tail == "" {
      assert last == y;
      Text.SplitWhole(y, ',');
    } else {
      assert last == y + [','] + tail[1..];
      Text.SplitFirst(y, tail[1..], ',');
    }
  }

  lemma SplitIsNamed(text: string)
    requires |Text.Split(text, ",")| >= 3
    ensures exists address, x, y, tail :: NamesRecipient(text, address, x, y, tail)
  {
    hide Text.Split;
    var rest1 := Text.SplitHead(text, ',');
    var rest2 := Text.SplitHead(rest1, ',');
    var rest3 := Text.SplitHead(rest2, ',');
    var address, x, y := Text.Split(text, ",")[0], Text.Split(rest1, ",")[0], Text.Split(rest2, ",")[0];
    Regroup(address, x, rest2);
    if |Text.Split(rest2, ",")| == 1 {
      assert NamesRecipient(text, address, x, y, "");
    } else {
      assert rest2 == y + ("," + rest3);
      assert address + "," + x + "," + rest2 == address + "," + x + "," + y + ("," + rest3);
      assert NamesRecipient(text, address, x, y, "," + rest3);
    }
  }

  lemma Regroup(a: string, b: string, c: string)
    ensures a + "," + (b + "," + c) == a + "," + b + "," + c
  {
  }

  lemma RecipientIs(c: Crypto, p: Payload, r: Response, t: nat, k: nat, row: seq<string>, own: nat)
    requires t < |p.tokens| && k < |p.recipientAddress| == |p.recipientAmounts| && RecipientSlot(c, p, r.outTimeStamp, t, k).Some?
    requires own + k < |row| && row[own + k] == CommitmentOf(RecipientSlot(c, p, r.outTimeStamp, t, k).value)
    ensures t < |p.recipientAmounts[k]| && RecipientEntry(c, p, r, t, k, row, own)
  {
    hide ReadOut, Text.Split, IsCommitmentEntry, NamesRecipient;
    var parts := Text.Split(p.recipientAddress[k], ",");
    SplitIsNamed(p.recipientAddress[k]);
    OutIs(c, Stealth(parts[0]), p.tokens[t], p.recipientAmounts[k][t], parts[1], parts[2], r.outTimeStamp);
    forall address, x, y, tail | NamesRecipient(p.recipientAddress[k], address, x, y, tail)
      ensures [address, x, y] == parts[..3]
    {
      NamedIsSplit(p.recipientAddress[k], address, x, y, tail);
    }
    forall address, x, y, tail | NamesRecipient(p.recipientAddress[k], address, x, y, tail)
      ensures address == parts[0] && x == parts[1] && y == parts[2]
    {
      assert [address, x, y][0] == parts[0] && [address, x, y][1] == parts[1] && [address, x, y][2] == parts[2];
    }
  }

  /** What stands in a slot of accepted rows. */
  lemma OutSlotOf(c: Crypto, p: Payload, me: NoteOwner, r: Response, t: nat, i: nat)
    requires OutSlots(c, p, r).Some? && OwnerOf(p) == Some(me) && t < |p.tokens|
    ensures |OutSlots(c, p, r).value| == |p.tokens| && OutShape(p, r) && OutRowShape(p, r, t)
    ensures |OutSlots(c, p, r).value[t]| == SelfSlots(p) + |p.recipientAddress|
    ensures i < SelfSlots(p) + |p.recipientAddress| ==> Some(OutSlots(c, p, r).value[t][i]) == OutSlotAt(c, me, p, r, t, i)
  {
    hide OutSlotAt, OwnerOf, OutRow, OutRows;
    OutRowAt(c, me, p, r, |p.tokens|, t);
    if i < SelfSlots(p) + |p.recipientAddress| { OutSlotIs(c, me, p, r, t, SelfSlots(p) + |p.recipientAddress|, i); }
  }

  lemma OutLengthsHold(c: Crypto, p: Payload, r: Response)
    requires OutSlots(c, p, r).Some?
    ensures OutLengths(p, r, SelfSlots(p)) && |OutSlots(c, p, r).value| == |p.tokens|
    ensures forall t :: 0 <= t < |p.tokens| ==> |OutSlots(c, p, r).value[t]| == SelfSlots(p) + |p.recipientAddress|
  {
    hide ReadOut, OwnerOf, OutRows, Text.Split;
    var me := OwnerOf(p).value;
    forall t | 0 <= t < |p.tokens|
      ensures SelfSlots(p) <= |r.outAmounts[t]| && SelfSlots(p) <= |r.outH0Ax[t]| && SelfSlots(p) <= |r.outH0Ay[t]|
      ensures |OutSlots(c, p, r).value[t]| == SelfSlots(p) + |p.recipientAddress|
    {
      OutSlotOf(c, p, me, r, t, 0);
    }
    forall k | 0 <= k < |p.recipientAddress| && |p.tokens| > 0 ensures |p.tokens| <= |p.recipientAmounts[k]| {
      OutSlotOf(c, p, me, r, |p.tokens| - 1, SelfSlots(p) + k);
    }
  }

  lemma OutEntriesHold(c: Crypto, p: Payload, r: Response)
    requires OutSlots(c, p, r).Some?
    ensures exists me, own: nat :: OwnEntries(c, p, me, r, own, CommitmentRows(OutSlots(c, p, r).value))
                                   && RecipientEntries(c, p, r, own, CommitmentRows(OutSlots(c, p, r).value))
  {
    hide OutRows, OwnerOf, IsCaller, ReadOut, IsCommitmentEntry, RecipientSlot, RecipientEntry, Text.Split;
    var me, slots: seq<seq<OutSlot>>, own := OwnerOf(p).value, OutSlots(c, p, r).value, SelfSlots(p);
    var rows := CommitmentRows(slots);
    CallerIsOwner(p, me);
    OutLengthsHold(c, p, r);
    forall t, i | 0 <= t < |rows| && 0 <= i < own
      ensures IsCommitmentEntry(c, rows[t][i], me, p.tokens[t], r.outAmounts[t][i], r.outH0Ax[t][i], r.outH0Ay[t][i], r.outTimeStamp)
    {
      OutSlotOf(c, p, me, r, t, i);
      OutIs(c, me, p.tokens[t], r.outAmounts[t][i], r.outH0Ax[t][i], r.outH0Ay[t][i], r.outTimeStamp);
    }
    forall t, k | 0 <= t < |rows| && 0 <= k < |p.recipientAddress| ensures RecipientEntry(c, p, r, t, k, rows[t], own) {
      OutSlotOf(c, p, me, r, t, own + k);
      RecipientIs(c, p, r, t, k, rows[t], own);
    }
    assert OwnEntries(c, p, me, r, own, rows) && RecipientEntries(c, p, r, own, rows);
  }

  method OutCommitmentRow(c: Crypto, me: NoteOwner, p: Payload, r: Response, t: nat) returns (row: Option<seq<string>>)
    requires OutShape(p, r) && t < |p.tokens| && OutRowShape(p, r, t)
    ensures var slots := OutRow(c, me, p, r, t, SelfSlots(p) + |p.recipientAddress|);
            row == if slots.Some? then Some(CommitmentRow(slots.value)) else None
  {
    hide ParseBigInt, ReadOut, Text.Split, OutRow, OutSlotAt, RecipientSlot, CommitmentRow;
    var commitments: seq<string> := [];
    ghost var read: seq<OutSlot> := [];
    NoSlots(c, me, p, r, t);
    for i := 0 to SelfSlots(p)
      invariant OutRow(c, me, p, r, t, i) == Some(read) && commitments == CommitmentRow(read)
    {
      var slot := ReadOut(c, me, p.tokens[t], r.outAmounts[t][i], r.outH0Ax[t][i], r.outH0Ay[t][i], r.outTimeStamp);
      NextSlot(c, me, p, r, t, i);
      if slot.None? {
        OutRowFails(c, me, p, r, t, i + 1);
        return None;
      }
      OneMoreCommitment(read, slot.value);
      read := read + [slot.value];
      commitments := commitments + [CommitmentOf(slot.value)];
    }
    for k := 0 to |p.recipientAddress|
      invariant OutRow(c, me, p, r, t, SelfSlots(p) + k) == Some(read) && commitments == CommitmentRow(read)
    {
      var slot := RecipientSlot(c, p, r.outTimeStamp, t, k);
      NextSlot(c, me, p, r, t, SelfSlots(p) + k);
      if slot.None? {
        OutRowFails(c, me, p, r, t, SelfSlots(p) + k + 1);
        return None;
      }
      OneMoreCommitment(read, slot.value);
      read := read + [slot.value];
      commitments := commitments + [CommitmentOf(slot.value)];
    }
    row := Some(commitments);
  }

  lemma NoSlots(c: Crypto, me: NoteOwner, p: Payload, r: Response, t: nat)
    requires OutShape(p, r) && t < |p.tokens| && OutRowShape(p, r, t)
    ensures OutRow(c, me, p, r, t, 0) == Some([]) && CommitmentRow([]) == []
  {
  }

  lemma OneMoreCommitment(read: seq<OutSlot>, slot: OutSlot)
    ensures CommitmentRow(read + [slot]) == CommitmentRow(read) + [CommitmentOf(slot)]
  {
  }

  lemma NextSlot(c: Crypto, me: NoteOwner, p: Payload, r: Response, t: nat, i: nat)
    requires OutShape(p, r) && t < |p.tokens| && OutRowShape(p, r, t) && i < SelfSlots(p) + |p.recipientAddress|
    ensures var slot := if i < SelfSlots(p)
                        then ReadOut(c, me, p.tokens[t], r.outAmounts[t][i], r.outH0Ax[t][i], r.outH0Ay[t][i], r.outTimeStamp)
                        else RecipientSlot(c, p, r.outTimeStamp, t, i - SelfSlots(p));
            var rest := OutRow(c, me, p, r, t, i);
            OutRow(c, me, p, r, t, i + 1) == if rest.None? || slot.None? then None else Some(rest.value + [slot.value])
  {
    hide ReadOut, RecipientSlot;
  }

  lemma {:induction false} OutRowFails(c: Crypto, me: NoteOwner, p: Payload, r: Response, t: nat, n: nat)
    requires OutShape(p, r) && t < |p.tokens| && OutRowShape(p, r, t)
    requires n <= SelfSlots(p) + |p.recipientAddress| && OutRow(c, me, p, r, t, n).None?
    ensures OutRow(c, me, p, r, t, SelfSlots(p) + |p.recipientAddress|).None?
    decreases SelfSlots(p) + |p.recipientAddress| - n
  {
    hide OutSlotAt;
    if n < SelfSlots(p) + |p.recipientAddress| { OutRowFails(c, me, p, r, t, n + 1); }
  }

  // --- The balance of each token.

  /** The sum of the first n amounts, when they all parse. */
  function TextSum(texts: seq<string>, n: nat): Option<int>
    requires n <= |texts|
  {
    if n == 0 then Some(0)
    else
      var rest, v := TextSum(texts, n - 1), ParseBigInt(texts[n - 1]);
      if rest.None? || v.None? then None else Some(rest.value + v.value)
  }

  /** Own outputs are the inputs plus the requested change. */
  predicate Balanced(inAmounts: seq<string>, outAmounts: seq<string>, selfSlots: nat, change: string)
    requires selfSlots <= |outAmounts|
  {
    var ins, outs, delta := TextSum(inAmounts, |inAmounts|), TextSum(outAmounts, selfSlots), ParseBigInt(change);
    ins.Some? && outs.Some? && delta.Some? && ins.value + delta.value == outs.value
  }

  /** The first token's own outputs are, as text, the requested ones. */
  predicate AsRequested(p: Payload, r: Response) {
    p.selfOutputAmounts.Some? && p.selfOutputAmounts.value != [] ==>
      |r.outAmounts| > 0 && p.selfOutputAmounts.value <= r.outAmounts[0]
  }

  predicate AmountsConserve(p: Payload, r: Response) {
    && |r.inAmounts| == |r.outAmounts| == |p.amountChanges| == |p.tokens|
    && (forall t :: 0 <= t < |p.tokens| ==> SelfSlots(p) <= |r.outAmounts[t]|)
    && AsRequested(p, r)
    && (forall t :: 0 <= t < |p.tokens| ==> Balanced(r.inAmounts[t], r.outAmounts[t], SelfSlots(p), p.amountChanges[t]))
  }

  method SumTexts(texts: seq<string>, n: nat) returns (total: Option<int>)
    requires n <= |texts|
    ensures total == TextSum(texts, n)
  {
    hide ParseBigInt;
    var sum := 0;
    for i := 0 to n
      invariant TextSum(texts, i) == Some(sum)
    {
      var v := ParseBigInt(texts[i]);
      if v.None? {
        TextSumFails(texts, i + 1, n);
        return None;
      }
      sum := sum + v.value;
    }
    total := Some(sum);
  }

  lemma {:induction false} TextSumFails(texts: seq<string>, i: nat, n: nat)
    requires i <= n <= |texts| && TextSum(texts, i).None?
    ensures TextSum(texts, n).None?
    decreases n - i
  {
    hide ParseBigInt;
    if i < n { TextSumFails(texts, i + 1, n); }
  }

  method VerifyAssertAmountsConserve(p: Payload, r: Response) returns (ok: bool)
    ensures ok <==> AmountsConserve(p, r)
  {
    hide ParseBigInt, TextSum;
    if !(|r.inAmounts| == |r.outAmounts| == |p.amountChanges| == |p.tokens|) {
      return false;
    }
    var selfSlotCount := SelfSlots(p);
    for t := 0 to |p.tokens|
      invariant forall k :: 0 <= k < t ==> selfSlotCount <= |r.outAmounts[k]|
    {
      if |r.outAmounts[t]| < selfSlotCount {
        return false;
      }
    }
    if p.selfOutputAmounts.Some? {
      if p.selfOutputAmounts.value != [] && r.outAmounts == [] {
        return false;
      }
      for slot := 0 to |p.selfOutputAmounts.value|
        invariant slot > 0 ==> p.selfOutputAmounts.value[..slot] == r.outAmounts[0][..slot]
      {
        if r.outAmounts[0][slot] != p.selfOutputAmounts.value[slot] {
          return false;
        }
      }
    }
    for t := 0 to |p.tokens|
      invariant forall k :: 0 <= k < t ==> Balanced(r.inAmounts[k], r.outAmounts[k], selfSlotCount, p.amountChanges[k])
    {
      var inputTotal := SumTexts(r.inAmounts[t], |r.inAmounts[t]|);
      var selfOutputTotal := SumTexts(r.outAmounts[t], selfSlotCount);
      var change := ParseBigInt(p.amountChanges[t]);
      if inputTotal.None? || selfOutputTotal.None? || change.None? || inputTotal.value + change.value != selfOutputTotal.value {
        assert !Balanced(r.inAmounts[t], r.outAmounts[t], selfSlotCount, p.amountChanges[t]);
        return false;
      }
    }
    ok := true;
  }

  // --- The change of each token, recipients included.

  /** What the first n recipients get of a token. */
  function RecipientSum(p: Payload, t: nat, n: nat): Option<int>
    requires n <= |p.recipientAmounts|
  {
    if n == 0 then Some(0)
    else
      var rest := RecipientSum(p, t, n - 1);
      var v := if t < |p.recipientAmounts[n - 1]| then ParseBigInt(p.recipientAmounts[n - 1][t]) else None;
      if rest.None? || v.None? then None else Some(rest.value + v.value)
  }

  function SignedChange(p: Payload, t: nat): Option<int> {
    var own := if t < |p.amountChanges| then ParseBigInt(p.amountChanges[t]) else None;
    var given := RecipientSum(p, t, |p.recipientAmounts|);
    if own.None? || given.None? then None else Some(own.value + given.value)
  }

  predicate ChangesParse(p: Payload) {
    forall t :: 0 <= t < |p.tokens| ==> SignedChange(p, t).Some?
  }

  method VerifyComputeAmountChangesSigned(p: Payload) returns (changes: Option<seq<int>>)
    ensures changes.Some? <==> ChangesParse(p)
    ensures changes.Some? ==> |changes.value| == |p.tokens| && forall t :: 0 <= t < |p.tokens| ==> changes.value[t] == SignedChange(p, t).value
  {
    hide ParseBigInt;
    var out: seq<int> := [];
    for t := 0 to |p.tokens|
      invariant |out| == t && forall k :: 0 <= k < t ==> SignedChange(p, k) == Some(out[k])
    {
      var selfDelta := if t < |p.amountChanges| then ParseBigInt(p.amountChanges[t]) else None;
      var recipientTotal := SumForRecipients(p, t);
      if selfDelta.None? || recipientTotal.None? {
        assert SignedChange(p, t).None?;
        return None;
      }
      out := out + [selfDelta.value + recipientTotal.value];
    }
    changes := Some(out);
  }

  method SumForRecipients(p: Payload, t: nat) returns (total: Option<int>)
    ensures total == RecipientSum(p, t, |p.recipientAmounts|)
  {
    hide ParseBigInt;
    var sum := 0;
    for k := 0 to |p.recipientAmounts|
      invariant RecipientSum(p, t, k) == Some(sum)
    {
      var v := if t < |p.recipientAmounts[k]| then ParseBigInt(p.recipientAmounts[k][t]) else None;
      if v.None? {
        RecipientSumFails(p, t, k + 1);
        return None;
      }
      sum := sum + v.value;
    }
    total := Some(sum);
  }

  lemma {:induction false} RecipientSumFails(p: Payload, t: nat, k: nat)
    requires k <= |p.recipientAmounts| && RecipientSum(p, t, k).None?
    ensures RecipientSum(p, t, |p.recipientAmounts|).None?
    decreases |p.recipientAmounts| - k
  {
    hide ParseBigInt;
    if k < |p.recipientAmounts| { RecipientSumFails(p, t, k + 1); }
  }

  // --- Amounts behind the notes.

  function AmountIn(slot: Slot): int {
    if slot.Empty? then 0 else slot.note.amount
  }

  function AmountOut(slot: OutSlot): int {
    if slot.Nothing? then 0 else slot.note.amount
  }

  function TotalIn(row: seq<Slot>): int {
    if row == [] then 0 else TotalIn(row[..|row| - 1]) + AmountIn(row[|row| - 1])
  }

  function TotalOut(row: seq<OutSlot>): int {
    if row == [] then 0 else TotalOut(row[..|row| - 1]) + AmountOut(row[|row| - 1])
  }

  lemma {:induction false} TotalInIsText(c: Crypto, me: NoteOwner, token: string, amounts: seq<string>, xs: seq<string>, ys: seq<string>,
                                         times: seq<string>, n: nat)
    requires n <= |amounts| == |xs| == |ys| == |times| && ReadRow(c, me, token, amounts, xs, ys, times, n).Some?
    ensures TextSum(amounts, n) == Some(TotalIn(ReadRow(c, me, token, amounts, xs, ys, times, n).value))
    decreases n
  {
    hide ParseBigInt;
    if n > 0 {
      TotalInIsText(c, me, token, amounts, xs, ys, times, n - 1);
      var row, rest := ReadRow(c, me, token, amounts, xs, ys, times, n).value, ReadRow(c, me, token, amounts, xs, ys, times, n - 1).value;
      assert row[..n - 1] == rest;
    }
  }

  lemma SlotAmountIsText(c: Crypto, me: NoteOwner, p: Payload, r: Response, t: nat, i: nat)
    requires OutShape(p, r) && t < |p.tokens| && OutRowShape(p, r, t) && i < SelfSlots(p) + |p.recipientAddress|
    requires OutSlotAt(c, me, p, r, t, i).Some?
    ensures var amount := AmountOut(OutSlotAt(c, me, p, r, t, i).value);
            if i < SelfSlots(p) then ParseBigInt(r.outAmounts[t][i]) == Some(amount)
            else var k := i - SelfSlots(p); t < |p.recipientAmounts[k]| && ParseBigInt(p.recipientAmounts[k][t]) == Some(amount)
  {
    hide ParseBigInt, Text.Split;
  }

  /** Own slots carry the response's amounts, recipient slots the caller's. */
  lemma {:induction false} TotalOutIsText(c: Crypto, me: NoteOwner, p: Payload, r: Response, t: nat, n: nat)
    requires OutShape(p, r) && t < |p.tokens| && OutRowShape(p, r, t)
    requires n <= SelfSlots(p) + |p.recipientAddress| && OutRow(c, me, p, r, t, n).Some?
    ensures n <= SelfSlots(p) ==> TextSum(r.outAmounts[t], n) == Some(TotalOut(OutRow(c, me, p, r, t, n).value))
    ensures n >= SelfSlots(p) ==> var own, given := TextSum(r.outAmounts[t], SelfSlots(p)), RecipientSum(p, t, n - SelfSlots(p));
              own.Some? && given.Some? && TotalOut(OutRow(c, me, p, r, t, n).value) == own.value + given.value
    decreases n
  {
    hide ParseBigInt, OutSlotAt, AmountOut;
    if n > 0 {
      TotalOutIsText(c, me, p, r, t, n - 1);
      var row, rest := OutRow(c, me, p, r, t, n).value, OutRow(c, me, p, r, t, n - 1).value;
      assert row[..n - 1] == rest;
      SlotAmountIsText(c, me, p, r, t, n - 1);
    }
  }
}
