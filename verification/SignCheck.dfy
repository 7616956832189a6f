/**
 The whole check of a prepared transaction. Accepting one means that the answered hash is the hash of one list of
 nullifiers, commitments and amount changes; that these are made of the caller's own request and of the slots answered;
 and that however they are opened, the notes balance against the changes.
 */
module SignCheck {
  import opened Wrappers
  import opened Numbers
  import opened Enclave
  import opened EnclaveAmounts
  import opened PrepareTx
  import opened SignedBalance
  import opened Field

  // --- What an accepted response vouches for.

  /** The answered hash is the hash of this data. */
  predicate AnswersHash(c: Crypto, p: Payload, r: Response, hashed: Hashed) {
    && c.signedHash(p, r.(signedMessageHash := ""), hashed).Some?
    && ParseBigInt(r.signedMessageHash) == c.signedHash(p, r.(signedMessageHash := ""), hashed)
  }

  /** Every input slot's nullifier in order, each made of the caller's keys and the slot's own texts. */
  ghost predicate HashesInputs(c: Crypto, p: Payload, r: Response, hashed: Hashed) {
    exists me, rows :: NullifierEntries(c, p, me, r, rows) && FlatNumbers(rows, hashed.nullifiers)
  }

  /** Every output slot's commitment in order, token by token: the caller's own, then one for each recipient of the request. */
  ghost predicate HashesOutputs(c: Crypto, p: Payload, r: Response, hashed: Hashed) {
    exists me, own: nat, rows ::
      OwnEntries(c, p, me, r, own, rows) && RecipientEntries(c, p, r, own, rows) && FlatNumbers(rows, hashed.commitments)
  }

  /** Every token's change, recipients included; a negative one as its distance below the field order. */
  predicate HashesChanges(p: Payload, hashed: Hashed) {
    && ChangesParse(p) && |hashed.amountChanges| == |p.tokens|
    && forall t :: 0 <= t < |p.tokens| ==>
         hashed.amountChanges[t] == SignedChange(p, t).value + (if SignedChange(p, t).value < 0 then FIELD_P else 0)
  }

  /** An opening that does not balance shows two notes of different content with one hash. */
  ghost predicate BalancesOrCollides(c: Crypto, p: Payload, r: Response, spent: seq<Option<NoteParams>>, created: seq<Option<NoteParams>>, token: int)
    requires ChangesParse(p)
  {
    || SomeCollide(c.nullifier, spent, InNotes(c, p, r)) || SomeCollide(c.commitment, created, OutNotes(c, p, r))
    || (&& (TokenTotal(created, token) - TokenTotal(spent, token) - ChangeFor(p, token, |p.tokens|)) % FIELD_P == 0
        && (FieldAmounts(spent) && FieldAmounts(created) && FieldAmounts(InNotes(c, p, r)) && FieldAmounts(OutNotes(c, p, r)) ==>
              TokenTotal(created, token) - TokenTotal(spent, token) == ChangeFor(p, token, |p.tokens|)))
  }

  ghost predicate EveryOpeningBalances(c: Crypto, p: Payload, r: Response, hashed: Hashed)
    requires ChangesParse(p)
  {
    forall spent, created, token :: Opens(c.nullifier, spent, hashed.nullifiers) && Opens(c.commitment, created, hashed.commitments) ==>
      BalancesOrCollides(c, p, r, spent, created, token)
  }

  /** The amounts requested for the caller head the first token's outputs, as text. */
  predicate EchoesOwnOutputs(p: Payload, r: Response) {
    p.selfOutputAmounts.Some? ==> forall i :: 0 <= i < |p.selfOutputAmounts.value| ==>
      |r.outAmounts| > 0 && i < |r.outAmounts[0]| && r.outAmounts[0][i] == p.selfOutputAmounts.value[i]
  }

  ghost predicate Vouched(c: Crypto, p: Payload, r: Response, hashed: Hashed) {
    && AnswersHash(c, p, r, hashed)
    && HashesInputs(c, p, r, hashed) && HashesOutputs(c, p, r, hashed) && HashesChanges(p, hashed)
    && EveryOpeningBalances(c, p, r, hashed)
    && EchoesOwnOutputs(p, r)
  }

  /** Of all the keys of the caller's, the spend set is this one. */
  ghost predicate SpendsList(c: Crypto, p: Payload, r: Response, authorised: seq<string>) {
    forall me :: IsCaller(p, me) ==> SpendsAuthorised(c, p, me, r, authorised)
  }

  /** An explicit list is what is spent; without one, the speculative notes are; with neither, nothing is when empty notes are forced. */
  ghost predicate SpendsWhatWasAllowed(c: Crypto, p: Payload, r: Response) {
    && (p.inputCommitments.Some? ==> SpendsList(c, p, r, p.inputCommitments.value))
    && (p.inputCommitments.None? && p.speculative.Some? ==>
          exists allowed :: ListsSpeculative(c, Flatten(p.speculative.value), allowed) && SpendsList(c, p, r, allowed))
    && (p.inputCommitments.None? && p.speculative.None? && p.forceEmptyUtxos ==> SpendsList(c, p, r, []))
  }

  lemma ChangesAreHashed(p: Payload, hashed: Hashed)
    requires ChangesParse(p) && hashed.amountChanges == WrappedChanges(p)
    ensures HashesChanges(p, hashed)
  {
    hide SignedChange;
  }

  lemma OwnOutputsEchoed(p: Payload, r: Response)
    requires AmountsConserve(p, r)
    ensures EchoesOwnOutputs(p, r)
  {
    hide ParseBigInt, TextSum, Balanced;
  }

  lemma OpeningsBalance(c: Crypto, p: Payload, r: Response, hashed: Hashed)
    requires Checked(c, p, r) && Recomputed(p, InSlots(c, p, r).value, OutSlots(c, p, r).value) == Some(hashed)
    ensures ChangesParse(p) && EveryOpeningBalances(c, p, r, hashed)
  {
    hide Checked, Recomputed, InSlots, OutSlots, InNotes, OutNotes, SignedChange, TokenTotal, Opens, SomeCollide, ChangeFor, FieldAmounts;
    ChangesOfChecked(c, p, r, hashed);
    forall spent, created, token | Opens(c.nullifier, spent, hashed.nullifiers) && Opens(c.commitment, created, hashed.commitments)
      ensures BalancesOrCollides(c, p, r, spent, created, token)
    {
      SignedHashBalances(c, p, r, hashed, spent, created, token);
    }
  }

  lemma ChangesOfChecked(c: Crypto, p: Payload, r: Response, hashed: Hashed)
    requires Checked(c, p, r) && Recomputed(p, InSlots(c, p, r).value, OutSlots(c, p, r).value) == Some(hashed)
    ensures ChangesParse(p)
  {
    hide InSlots, OutSlots, AmountsConserve, SignedChange, Authorised, MatchesAuthorised, ParseAll, Flatten;
  }

  method VerifyPrepareTxResponse(c: Crypto, p: Payload, r: Response) returns (ok: bool)
    ensures ok <==> Accepted(c, p, r)
    ensures ok ==> c.stealthPairOwned(p, r.(signedMessageHash := "")) && SpendsWhatWasAllowed(c, p, r)
    ensures ok ==> exists hashed :: Vouched(c, p, r, hashed)
  {
    hide ParseBigInt, Authorised, InSlots, OutSlots, AmountsConserve, SignedChange, ParseAll, Flatten, MatchesAuthorised, NullifierEntries, OwnEntries,
         RecipientEntries, FlatNumbers, SpendsAuthorised, ListsSpeculative, IsCaller, EveryOpeningBalances, EchoesOwnOutputs;
    var may := AuthorisedInputs(c, p);
    if may.None? {
      return false;
    }
    var inNullifiers := VerifyComputeInNullifiers(c, p, r, may.value);
    if inNullifiers.None? {
      return false;
    }
    var outCommitments := VerifyComputeOutCommitments(c, p, r);
    if outCommitments.None? {
      return false;
    }
    var conserves := VerifyAssertAmountsConserve(p, r);
    if !conserves || !c.stealthPairOwned(p, Unsigned(r)) {
      return false;
    }
    var changes := VerifyComputeAmountChangesSigned(p);
    var nullifiers := FlatToBigInts(inNullifiers.value);
    var commitments := FlatToBigInts(outCommitments.value);
    if changes.None? || nullifiers.None? || commitments.None? {
      return false;
    }
    var wrapped := seq(|changes.value|, t requires 0 <= t < |changes.value| => Wrap(changes.value[t]));
    assert wrapped == WrappedChanges(p);
    var hashed := Hashed(nullifiers.value, commitments.value, wrapped);
    var recomputed, expected := c.signedHash(p, Unsigned(r), hashed), ParseBigInt(r.signedMessageHash);
    if recomputed.None? || expected.None? || recomputed != expected {
      return false;
    }
    ChangesAreHashed(p, hashed);
    OwnOutputsEchoed(p, r);
    OpeningsBalance(c, p, r, hashed);
    assert Vouched(c, p, r, hashed);
    ok := true;
  }

  // --- What is refused.

  lemma {:induction false} InsIgnoreHash(c: Crypto, me: NoteOwner, tokens: seq<string>, r: Response, n: nat)
    requires InShape(tokens, r) && n <= |tokens|
    ensures ReadIns(c, me, tokens, Unsigned(r), n) == ReadIns(c, me, tokens, r, n)
    decreases n
  {
    hide ReadRow;
    if n > 0 { InsIgnoreHash(c, me, tokens, r, n - 1); }
  }

  lemma {:induction false} OutRowIgnoresHash(c: Crypto, me: NoteOwner, p: Payload, r: Response, t: nat, n: nat)
    requires OutShape(p, r) && t < |p.tokens| && OutRowShape(p, r, t) && n <= SelfSlots(p) + |p.recipientAddress|
    ensures OutRow(c, me, p, Unsigned(r), t, n) == OutRow(c, me, p, r, t, n)
    decreases n
  {
    hide ReadOut, RecipientSlot;
    if n > 0 { OutRowIgnoresHash(c, me, p, r, t, n - 1); }
  }

  lemma {:induction false} OutsIgnoreHash(c: Crypto, me: NoteOwner, p: Payload, r: Response, n: nat)
    requires OutShape(p, r) && n <= |p.tokens|
    ensures OutRows(c, me, p, Unsigned(r), n) == OutRows(c, me, p, r, n)
    decreases n
  {
    hide OutRow;
    if n > 0 {
      OutsIgnoreHash(c, me, p, r, n - 1);
      if OutRowShape(p, r, n - 1) { OutRowIgnoresHash(c, me, p, r, n - 1, SelfSlots(p) + |p.recipientAddress|); }
    }
  }

  lemma SlotsIgnoreHash(c: Crypto, p: Payload, r: Response)
    ensures InSlots(c, p, Unsigned(r)) == InSlots(c, p, r) && OutSlots(c, p, Unsigned(r)) == OutSlots(c, p, r)
  {
    hide ReadIns, OutRows, OwnerOf;
    if OwnerOf(p).Some? {
      if InShape(p.tokens, r) { InsIgnoreHash(c, OwnerOf(p).value, p.tokens, r, |p.tokens|); }
      if OutShape(p, r) { OutsIgnoreHash(c, OwnerOf(p).value, p, r, |p.tokens|); }
    }
  }

  /** All accepted forms of one response answer with the same number: with any other number, or none, it is refused. */
  lemma OtherHashIsRefused(c: Crypto, p: Payload, r: Response, text: string)
    requires Accepted(c, p, r) && ParseBigInt(text) != ParseBigInt(r.signedMessageHash)
    ensures !Accepted(c, p, r.(signedMessageHash := text))
  {
    hide InSlots, OutSlots, AmountsConserve, Authorised, MatchesAuthorised, Recomputed, ParseBigInt;
    var other := r.(signedMessageHash := text);
    assert Unsigned(other) == Unsigned(r);
    SlotsIgnoreHash(c, p, r);
    SlotsIgnoreHash(c, p, other);
  }
}
