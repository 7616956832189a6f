/**
 Building output notes and checking them: change and recipient notes per token, the amount changes as
 field elements, and the recipient slot added to every row.
 */
module Outputs {
  import opened Wrappers
  import opened Utxos
  import opened Field
  import Numbers
  import Text

  /** A recipient string: absent, unusable, or split into the parts used. */
  datatype RecipientAddress = NoRecipient | BadRecipient | GoodRecipient(stealthAddress: string, h0: (int, int), encryptionKey: string)

  /** Of the parts between commas the first is the stealth address, the next two are the point and the sixth is the encryption key. */
  function ReadRecipient(text: string): RecipientAddress {
    if text == "" then NoRecipient
    else
      var parts := Text.Split(text, ",");
      if |parts| < 6 then BadRecipient
      else
        var x, y := Numbers.ParseBigInt(parts[1]), Numbers.ParseBigInt(parts[2]);
        if x.None? || y.None? then BadRecipient else GoodRecipient(parts[0], (x.value, y.value), parts[5])
  }

  /** At least six parts, of which the second and third are the point's coordinates. */
  predicate NamesRecipient(text: string, parts: seq<string>, to: RecipientAddress) {
    && text != "" && Text.PiecesOf(parts, text, ',') && |parts| >= 6
    && to.GoodRecipient? && to.stealthAddress == parts[0] && to.encryptionKey == parts[5]
    && Numbers.ParseBigInt(parts[1]) == Some(to.h0.0) && Numbers.ParseBigInt(parts[2]) == Some(to.h0.1)
  }

  /** A text is read as a recipient exactly when its parts name that recipient. */
  lemma RecipientReadIff(text: string, to: RecipientAddress)
    requires to.GoodRecipient?
    ensures ReadRecipient(text) == to <==> exists parts :: NamesRecipient(text, parts, to)
  {
    hide Numbers.ParseBigInt, Text.Split, Text.PiecesOf;
    var all := Text.Split(text, ",");
    Text.SplitIsPieces(text, all, ',');
    if ReadRecipient(text) == to { assert NamesRecipient(text, all, to); }
    if parts :| NamesRecipient(text, parts, to) { Text.SplitIsPieces(text, parts, ','); }
  }

  function Max(a: int, b: int): int { if a >= b then a else b }

  function RecipientAmountAt(recipient: RecipientAddress, amounts: seq<Option<int>>, i: nat): Option<int> {
    if recipient.NoRecipient? then None
    else if i < |amounts| && amounts[i].Some? then amounts[i]
    else Some(0)
  }

  /** The change note, then the recipient's. Inputs are never empty: their first note names the token. */
  function OutputUtxoProcessing(inputs: seq<Utxo>, amountChange: int, revertIfNegative: bool,
                                recipient: RecipientAddress, recipientAmount: Option<int>): Result<seq<Utxo>, string>
    requires inputs != []
  {
    var total := Total(inputs);
    if revertIfNegative && amountChange < 0 && total + amountChange < 0 then Err("insufficient funds to transact")
    else
      var change := Utxo(Max(total + amountChange, 0), inputs[0].token, inputs[0].mint, Self);
      if recipient.NoRecipient? || recipientAmount.None? then Ok([change])
      else if recipient.BadRecipient? then Err("malformed recipient address")
      else
        Ok([change, Utxo(recipientAmount.value, inputs[0].token, inputs[0].mint,
                         Recipient(recipient.stealthAddress, recipient.h0, recipient.encryptionKey))])
  }

  function ValueOr(amount: Option<int>, default: int): int {
    if amount.Some? then amount.value else default
  }

  /** On success, out minus in is the requested change plus the recipient's amount exactly when change does not overdraw the inputs. */
  lemma OutputConservesIff(inputs: seq<Utxo>, amountChange: int, revertIfNegative: bool,
                           recipient: RecipientAddress, recipientAmount: Option<int>)
    requires inputs != [] && (recipient.NoRecipient? ==> recipientAmount.None?)
    ensures var r := OutputUtxoProcessing(inputs, amountChange, revertIfNegative, recipient, recipientAmount);
            && (r.Err? <==> (revertIfNegative && amountChange < 0 && Total(inputs) + amountChange < 0)
                            || (recipient.BadRecipient? && recipientAmount.Some?))
            && (r.Ok? && recipientAmount.Some? ==>
                  |r.value| == 2 && r.value[1].amount == recipientAmount.value && r.value[1].owner.Recipient?)
            && (r.Ok? ==>
              && |r.value| >= 1 && r.value[0].amount >= 0 && r.value[0].owner == Self
              && (forall i :: 0 <= i < |r.value| ==> r.value[i].token == inputs[0].token)
              && (Total(r.value) - Total(inputs) == amountChange + ValueOr(recipientAmount, 0) <==> Total(inputs) + amountChange >= 0))
  {
    var r := OutputUtxoProcessing(inputs, amountChange, revertIfNegative, recipient, recipientAmount);
    if r.Ok? {
      TotalOfRow(r.value);
    }
  }

  lemma TotalOfRow(row: seq<Utxo>)
    requires 1 <= |row| <= 2
    ensures Total(row) == row[0].amount + if |row| == 2 then row[1].amount else 0
  {
    assert row[..1][..0] == [];
    if |row| == 1 { assert row[..0] == []; }
  }

  /** The change note of the inputs' own token, and for a recipient a note of that token made out to it. */
  predicate IsOutputRow(inputs: seq<Utxo>, amountChange: int, to: RecipientAddress, given: int, row: seq<Utxo>)
    requires inputs != []
  {
    && |row| == (if to.NoRecipient? then 1 else 2)
    && row[0] == Utxo(Total(inputs) + amountChange, inputs[0].token, inputs[0].mint, Self) && row[0].amount >= 0
    && (to.GoodRecipient? ==>
          row[1] == Utxo(given, inputs[0].token, inputs[0].mint, Recipient(to.stealthAddress, to.h0, to.encryptionKey)))
  }

  /** The change overdraws the inputs, or there is a recipient text that cannot be read. */
  predicate CannotBuild(inputs: seq<Utxo>, amountChange: int, to: RecipientAddress) {
    (amountChange < 0 && Total(inputs) + amountChange < 0) || to.BadRecipient?
  }

  /** Fails exactly when a change overdraws its inputs or there is someone to give to whose text cannot be read. */
  method BuildOutputUtxos(inputs: seq<seq<Utxo>>, amountChanges: seq<int>, recipientAddress: string, recipientAmounts: seq<Option<int>>)
    returns (r: Result<seq<seq<Utxo>>, string>)
    requires |amountChanges| >= |inputs| && forall i :: 0 <= i < |inputs| ==> inputs[i] != []
    ensures r.Err? <==> exists i :: 0 <= i < |inputs| && CannotBuild(inputs[i], amountChanges[i], ReadRecipient(recipientAddress))
    ensures r.Ok? ==> |r.value| == |inputs| && forall i :: 0 <= i < |inputs| && NonNegative(inputs[i]) ==>
      var given := if i < |recipientAmounts| && recipientAmounts[i].Some? then recipientAmounts[i].value else 0;
      && IsOutputRow(inputs[i], amountChanges[i], ReadRecipient(recipientAddress), given, r.value[i])
      && Total(r.value[i]) - Total(inputs[i]) == amountChanges[i] + if recipientAddress == "" then 0 else given
  {
    hide Total, ReadRecipient, IsOutputRow, OutputUtxoProcessing, RecipientAmountAt, CannotBuild, NonNegative;
    var recipient := ReadRecipient(recipientAddress);
    NoTextNoRecipient(recipientAddress);
    var rows: seq<seq<Utxo>> := [];
    for i := 0 to |inputs|
      invariant |rows| == i
      invariant forall k :: 0 <= k < i ==> !CannotBuild(inputs[k], amountChanges[k], recipient)
      invariant forall k :: 0 <= k < i && NonNegative(inputs[k]) ==>
        var given := if k < |recipientAmounts| && recipientAmounts[k].Some? then recipientAmounts[k].value else 0;
        && IsOutputRow(inputs[k], amountChanges[k], recipient, given, rows[k])
        && Total(rows[k]) - Total(inputs[k]) == amountChanges[k] + if recipientAddress == "" then 0 else given
    {
      var amount := RecipientAmountAt(recipient, recipientAmounts, i);
      var row := OutputUtxoProcessing(inputs[i], amountChanges[i], true, recipient, amount);
      RowIs(inputs[i], amountChanges[i], recipient, recipientAmounts, i);
      if row.Err? {
        return Err(row.error);
      }
      rows := rows + [row.value];
    }
    r := Ok(rows);
  }

  lemma RowIs(inputs: seq<Utxo>, amountChange: int, recipient: RecipientAddress, amounts: seq<Option<int>>, i: nat)
    requires inputs != []
    ensures var row := OutputUtxoProcessing(inputs, amountChange, true, recipient, RecipientAmountAt(recipient, amounts, i));
            var given := if i < |amounts| && amounts[i].Some? then amounts[i].value else 0;
            && (row.Err? <==> CannotBuild(inputs, amountChange, recipient))
            && (row.Ok? && NonNegative(inputs) ==>
                  && IsOutputRow(inputs, amountChange, recipient, given, row.value)
                  && Total(row.value) - Total(inputs) == amountChange + if recipient.NoRecipient? then 0 else given)
  {
    hide Total;
    OutputConservesIff(inputs, amountChange, true, recipient, RecipientAmountAt(recipient, amounts, i));
    if NonNegative(inputs) { TotalNonNegative(inputs); }
  }

  lemma NoTextNoRecipient(text: string)
    ensures ReadRecipient(text).NoRecipient? <==> text == ""
  {
    hide Numbers.ParseBigInt, Text.Split;
  }

  // --- Amount changes.

  function TotalAt(rows: seq<seq<Utxo>>, i: nat): int {
    if i < |rows| then Total(rows[i]) else 0
  }

  /** Negative changes are shifted by the field order unless they are for the circuit data. */
  function AmountChangesOf(inputs: seq<seq<Utxo>>, outputs: seq<seq<Utxo>>, forCircomData: bool): seq<int> {
    seq(|inputs|, i requires 0 <= i < |inputs| =>
      var diff := TotalAt(outputs, i) - Total(inputs[i]);
      if forCircomData then diff else Wrap(diff))
  }

  method CalcAmountChanges(inputs: seq<seq<Utxo>>, outputs: seq<seq<Utxo>>, forCircomData: bool) returns (changes: seq<int>)
    ensures changes == AmountChangesOf(inputs, outputs, forCircomData)
    ensures |changes| == |inputs| && forall i :: 0 <= i < |inputs| ==>
              var diff := (if i < |outputs| then Total(outputs[i]) else 0) - Total(inputs[i]);
              changes[i] == diff + if diff < 0 && !forCircomData then FIELD_P else 0
  {
    changes := [];
    for i := 0 to |inputs|
      invariant |changes| == i
      invariant forall k :: 0 <= k < i ==> changes[k] == AmountChangesOf(inputs, outputs, forCircomData)[k]
    {
      var inTotal := SumRow(inputs[i]);
      var outTotal := 0;
      if i < |outputs| {
        outTotal := SumRow(outputs[i]);
      }
      var diff := outTotal - inTotal;
      if diff < 0 && !forCircomData {
        diff := FIELD_P + diff;
      }
      changes := changes + [diff];
    }
  }

  method SumRow(row: seq<Utxo>) returns (total: int)
    ensures total == Total(row)
  {
    total := 0;
    for j := 0 to |row|
      invariant total == Total(row[..j])
    {
      assert row[..j + 1][..j] == row[..j];
      total := total + row[j].amount;
    }
    assert row[..|row|] == row;
  }

  predicate EnsureAmountChanges(inputs: seq<seq<Utxo>>, outputs: seq<seq<Utxo>>, amountChanges: seq<int>) {
    var diffs := AmountChangesOf(inputs, outputs, false);
    |diffs| == |amountChanges| && forall i :: 0 <= i < |diffs| ==> diffs[i] == Wrap(amountChanges[i])
  }

  /** Out minus in is the amount change, for every token. */
  ghost predicate Conserves(inputs: seq<seq<Utxo>>, outputs: seq<seq<Utxo>>, amountChanges: seq<int>) {
    |inputs| == |amountChanges| && forall i :: 0 <= i < |inputs| ==> TotalAt(outputs, i) - Total(inputs[i]) == amountChanges[i]
  }

  /** x and y are the same up to one turn of the field: one is negative and the other is it plus the order. */
  predicate OneTurnApart(x: int, y: int) {
    (x < 0 <= y && y == x + FIELD_P) || (y < 0 <= x && x == y + FIELD_P)
  }

  /** What acceptance means for all magnitudes: each change is the difference, or one turn of the field away from it. */
  lemma AcceptedIffSameOrOneTurn(inputs: seq<seq<Utxo>>, outputs: seq<seq<Utxo>>, amountChanges: seq<int>)
    ensures EnsureAmountChanges(inputs, outputs, amountChanges) <==>
      |inputs| == |amountChanges| &&
      forall i :: 0 <= i < |inputs| ==>
        var diff := TotalAt(outputs, i) - Total(inputs[i]);
        diff == amountChanges[i] || OneTurnApart(diff, amountChanges[i])
  {
    hide Total;
    var diffs := AmountChangesOf(inputs, outputs, false);
    forall i | 0 <= i < |inputs| && i < |amountChanges|
      ensures var diff := TotalAt(outputs, i) - Total(inputs[i]);
              diffs[i] == Wrap(amountChanges[i]) <==> diff == amountChanges[i] || OneTurnApart(diff, amountChanges[i])
    {
    }
  }

  /** Magnitudes below half the field order. */
  predicate Small(x: int) {
    -FIELD_P < 2 * x < FIELD_P
  }

  ghost predicate SmallTotals(inputs: seq<seq<Utxo>>, outputs: seq<seq<Utxo>>, amountChanges: seq<int>) {
    && (forall i :: 0 <= i < |inputs| ==> Small(TotalAt(outputs, i) - Total(inputs[i])))
    && (forall i :: 0 <= i < |amountChanges| ==> Small(amountChanges[i]))
  }

  /** Below half the field order the check accepts exactly the conserving rows. */
  lemma AcceptedIffConserves(inputs: seq<seq<Utxo>>, outputs: seq<seq<Utxo>>, amountChanges: seq<int>)
    requires SmallTotals(inputs, outputs, amountChanges)
    ensures EnsureAmountChanges(inputs, outputs, amountChanges) <==> Conserves(inputs, outputs, amountChanges)
  {
    hide Total;
    AcceptedIffSameOrOneTurn(inputs, outputs, amountChanges);
  }

  // --- The recipient slot.

  function HasToken(row: seq<Utxo>, token: string): bool {
    exists j :: 0 <= j < |row| && EqualFold(row[j].token, token)
  }

  function RecipientNote(row: seq<Utxo>, mine: bool, amount: int, token: string, owner: Owner): Utxo
    requires row != []
  {
    if mine then Utxo(amount, token, "", owner) else Utxo(0, row[0].token, "", owner)
  }

  /** A row with a note of the token, spelled in any case. */
  predicate NamesToken(row: seq<Utxo>, token: string) {
    exists j :: 0 <= j < |row| && SameSpelling(row[j].token, token)
  }

  /** Row k, the first with a note of the token, gets the amount of that token and its change grows by it; every other row gets a zero note of its own token. */
  predicate GivenInRow(rows: seq<seq<Utxo>>, rows': seq<seq<Utxo>>, deltas: seq<int>, deltas': seq<int>, k: nat, token: string, amount: int, to: RecipientAddress)
    requires to.GoodRecipient? && |rows'| == |rows| == |deltas| == |deltas'| && forall i :: 0 <= i < |rows| ==> rows[i] != []
  {
    && k < |rows| && NamesToken(rows[k], token) && (forall i :: 0 <= i < k ==> !NamesToken(rows[i], token))
    && rows'[k] == rows[k] + [Utxo(amount, token, "", Recipient(to.stealthAddress, to.h0, to.encryptionKey))] && deltas'[k] == deltas[k] + amount
    && forall i :: 0 <= i < |rows| && i != k ==>
         rows'[i] == rows[i] + [Utxo(0, rows[i][0].token, "", Recipient(to.stealthAddress, to.h0, to.encryptionKey))] && deltas'[i] == deltas[i]
  }

  lemma HasTokenIff(row: seq<Utxo>, token: string)
    ensures HasToken(row, token) <==> NamesToken(row, token)
  {
    hide Lower, EqualFold, SameSpelling;
    forall j | 0 <= j < |row| ensures EqualFold(row[j].token, token) <==> SameSpelling(row[j].token, token) { EqualFoldIff(row[j].token, token); }
  }

  /** Appends the recipient's note to the first row of its token and a zero note to every other row. */
  method RecipientUtxoProcessing(recipientInfo: string, token: string, amount: int,
                                 outputs: array<seq<Utxo>>, deltas: array<int>)
    returns (r: Result<(), string>)
    requires deltas.Length == outputs.Length && forall i :: 0 <= i < outputs.Length ==> outputs[i] != []
    modifies outputs, deltas
    ensures r.Ok? <==> ReadRecipient(recipientInfo).GoodRecipient? && exists i :: 0 <= i < outputs.Length && NamesToken(old(outputs[i]), token)
    ensures r.Err? ==> outputs[..] == old(outputs[..]) && deltas[..] == old(deltas[..])
    ensures r.Ok? ==> exists k :: GivenInRow(old(outputs[..]), outputs[..], old(deltas[..]), deltas[..], k, token, amount, ReadRecipient(recipientInfo))
  {
    hide HasToken, NamesToken, ReadRecipient;
    var recipient := ReadRecipient(recipientInfo);
    forall i | 0 <= i < outputs.Length ensures HasToken(outputs[i], token) <==> NamesToken(outputs[i], token) { HasTokenIff(outputs[i], token); }
    if !recipient.GoodRecipient? {
      return Err("malformed recipient info");
    }
    var k := 0;
    while k < outputs.Length && !HasToken(outputs[k], token)
      invariant k <= outputs.Length
      invariant forall i :: 0 <= i < k ==> !HasToken(outputs[i], token)
    {
      k := k + 1;
    }
    if k == outputs.Length {
      return Err("private recipient index not found");
    }
    var owner := Recipient(recipient.stealthAddress, recipient.h0, recipient.encryptionKey);
    for i := 0 to outputs.Length
      invariant forall j :: 0 <= j < i ==> outputs[j] == old(outputs[j]) + [RecipientNote(old(outputs[j]), j == k, amount, token, owner)]
      invariant forall j :: i <= j < outputs.Length ==> outputs[j] == old(outputs[j])
      invariant forall j :: 0 <= j < outputs.Length ==> deltas[j] == old(deltas[j]) + if j < i && j == k then amount else 0
    {
      outputs[i] := outputs[i] + [RecipientNote(outputs[i], i == k, amount, token, owner)];
      if i == k {
        deltas[i] := deltas[i] + amount;
      }
    }
    assert GivenInRow(old(outputs[..]), outputs[..], old(deltas[..]), deltas[..], k, token, amount, recipient);
    r := Ok(());
  }

  ghost predicate Extended(rows: seq<seq<Utxo>>, rows': seq<seq<Utxo>>, deltas: seq<int>, deltas': seq<int>, k: nat, amount: int) {
    && |rows'| == |rows| && |deltas'| == |deltas|
    && (forall i :: 0 <= i < |rows| ==>
          |rows'[i]| == |rows[i]| + 1 && rows'[i][..|rows[i]|] == rows[i] && rows'[i][|rows[i]|].amount == if i == k then amount else 0)
    && (forall i :: 0 <= i < |deltas| ==> deltas'[i] == deltas[i] + if i == k then amount else 0)
  }

  /** Adding the recipient slot keeps rows conserving, one note longer each. */
  lemma RecipientSlotConserves(inputs: seq<seq<Utxo>>, rows: seq<seq<Utxo>>, rows': seq<seq<Utxo>>,
                               deltas: seq<int>, deltas': seq<int>, k: nat, amount: int)
    requires Extended(rows, rows', deltas, deltas', k, amount) && |inputs| == |rows|
    ensures Conserves(inputs, rows', deltas') <==> Conserves(inputs, rows, deltas)
  {
    forall i | 0 <= i < |rows| ensures Total(rows'[i]) == Total(rows[i]) + if i == k then amount else 0 {
      assert rows'[i][..|rows'[i]| - 1] == rows[i];
    }
  }

  /** So does the check's acceptance, while magnitudes before and after stay below half the field order. */
  lemma RecipientSlotKeepsAcceptance(inputs: seq<seq<Utxo>>, rows: seq<seq<Utxo>>, rows': seq<seq<Utxo>>,
                                     deltas: seq<int>, deltas': seq<int>, k: nat, amount: int)
    requires Extended(rows, rows', deltas, deltas', k, amount) && |inputs| == |rows|
    requires SmallTotals(inputs, rows, deltas) && SmallTotals(inputs, rows', deltas')
    ensures EnsureAmountChanges(inputs, rows', deltas') <==> EnsureAmountChanges(inputs, rows, deltas)
  {
    hide Total, EnsureAmountChanges, SmallTotals, Extended;
    RecipientSlotConserves(inputs, rows, rows', deltas, deltas', k, amount);
    AcceptedIffConserves(inputs, rows, deltas);
    AcceptedIffConserves(inputs, rows', deltas');
  }
}
