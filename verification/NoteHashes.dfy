/**
 How a note's commitment and nullifier are computed: which numbers enter, and in which order they are hashed. An opening
 of the signed hash that does not balance then names the inputs on which Poseidon itself collides or gives zero.
 */
module NoteHashes {
  import opened Wrappers
  import opened Numbers
  import opened Enclave
  import opened EnclaveAmounts
  import opened PrepareTx
  import opened SignedBalance
  import opened Field

  /** Poseidon over two and four field elements, the stealth address of a randomised point under the caller's keys, and the time used for an empty time stamp. */
  datatype Primitives = Primitives(
    poseidon2: (int, int) -> nat,
    poseidon4: (int, int, int, int) -> nat,
    stealthAddress: ((int, int), string, (int, int)) -> Option<string>,
    currentTime: string)

  /** An own note's address comes from its point and the keys; without a key there is none. A given address is taken as it is. */
  function StealthAddress(h: Primitives, note: NoteParams): Option<string> {
    match note.owner
    case Own(nullifyingKey, spendingKey) => if nullifyingKey == "" then None else h.stealthAddress(note.h0, nullifyingKey, spendingKey)
    case Stealth(address) => if address == "" then None else Some(address)
  }

  /** Amount, token, address and time stamp, as field elements. */
  function CommitmentInputs(h: Primitives, note: NoteParams): Option<(int, int, int, int)> {
    var address := StealthAddress(h, note);
    if address.None? then None
    else
      var token, stealth := ParseBigInt(note.token), ParseBigInt(address.value);
      var ts := ParseBigInt(if note.timeStamp == "" then h.currentTime else note.timeStamp);
      if token.None? || stealth.None? || ts.None? then None
      else Some((note.amount % FIELD_P, token.value % FIELD_P, stealth.value % FIELD_P, ts.value % FIELD_P))
  }

  function Hash4(h: Primitives, x: (int, int, int, int)): nat {
    h.poseidon4(x.0, x.1, x.2, x.3)
  }

  function GetCommitment(h: Primitives, note: NoteParams): Option<string> {
    var x := CommitmentInputs(h, note);
    if x.None? then None else Some(ToBeHex(Hash4(h, x.value)))
  }

  /** The commitment and its signature under the nullifying key, as field elements; only own notes have one. */
  function NullifierInputs(h: Primitives, note: NoteParams): Option<(int, int)> {
    var x := CommitmentInputs(h, note);
    if x.None? || note.owner.Stealth? || note.owner.nullifyingKey == "" then None
    else
      var commitment, key := Hash4(h, x.value), ParseBigInt(note.owner.nullifyingKey);
      if key.None? then None
      else Some((commitment % FIELD_P, h.poseidon2(key.value % FIELD_P, commitment % FIELD_P) % FIELD_P))
  }

  function GetNullifier(h: Primitives, note: NoteParams): Option<string> {
    var x := NullifierInputs(h, note);
    if x.None? then None else Some(ToBeHex(h.poseidon2(x.value.0, x.value.1)))
  }

  /** The checks run with these hashes. */
  ghost predicate UsesPoseidon(c: Crypto, h: Primitives) {
    forall note :: c.commitment(note) == GetCommitment(h, note) && c.nullifier(note) == GetNullifier(h, note)
  }

  // --- What a collision of notes means.

  /** Two different inputs of one hash, or an input hashed to zero. */
  predicate Poseidon4Breaks(h: Primitives, a: Option<(int, int, int, int)>, b: Option<(int, int, int, int)>) {
    match (a, b)
    case (Some(x), Some(y)) => x != y && Hash4(h, x) % FIELD_P == Hash4(h, y) % FIELD_P
    case (Some(x), None) => Hash4(h, x) == 0
    case (None, Some(y)) => Hash4(h, y) == 0
    case (None, None) => false
  }

  predicate Poseidon2Breaks(h: Primitives, a: Option<(int, int)>, b: Option<(int, int)>) {
    match (a, b)
    case (Some(x), Some(y)) => x != y && h.poseidon2(x.0, x.1) == h.poseidon2(y.0, y.1)
    case (Some(x), None) => h.poseidon2(x.0, x.1) == 0
    case (None, Some(y)) => h.poseidon2(y.0, y.1) == 0
    case (None, None) => false
  }

  function Inputs4(h: Primitives, note: Option<NoteParams>): Option<(int, int, int, int)> {
    if note.None? then None else CommitmentInputs(h, note.value)
  }

  function Inputs2(h: Primitives, note: Option<NoteParams>): Option<(int, int)> {
    if note.None? then None else NullifierInputs(h, note.value)
  }

  lemma HexNumber(n: nat)
    ensures ParseBigInt(ToBeHex(n)) == Some(n)
  {
    hide ParseBigInt, ToBeHex;
    ToBeHexRoundTripIff(n);
  }

  lemma CommitmentNumber(c: Crypto, h: Primitives, note: NoteParams)
    requires UsesPoseidon(c, h)
    ensures var x := CommitmentInputs(h, note); HashOf(c.commitment, note) == if x.None? then None else Some(Hash4(h, x.value))
  {
    hide ParseBigInt, ToBeHex, CommitmentInputs;
    assert c.commitment(note) == GetCommitment(h, note);
    var x := CommitmentInputs(h, note);
    if x.Some? { HexNumber(Hash4(h, x.value)); }
  }

  lemma NullifierNumber(c: Crypto, h: Primitives, note: NoteParams)
    requires UsesPoseidon(c, h)
    ensures var x := NullifierInputs(h, note); HashOf(c.nullifier, note) == if x.None? then None else Some(h.poseidon2(x.value.0, x.value.1))
  {
    hide ParseBigInt, ToBeHex, NullifierInputs;
    assert c.nullifier(note) == GetNullifier(h, note);
    var x := NullifierInputs(h, note);
    if x.Some? { HexNumber(h.poseidon2(x.value.0, x.value.1)); }
  }

  /** The content of a note can be read off its commitment's inputs. */
  lemma InputsShowContent(h: Primitives, note: NoteParams)
    requires CommitmentInputs(h, note).Some?
    ensures ContentOf(Some(note)) == Content(CommitmentInputs(h, note).value.0, Some(CommitmentInputs(h, note).value.1))
  {
    hide ParseBigInt;
  }

  /** Notes of different content with one commitment are a Poseidon collision, or a zero hash. */
  lemma CommitmentCollision(c: Crypto, h: Primitives, a: Option<NoteParams>, b: Option<NoteParams>)
    requires UsesPoseidon(c, h) && Collide(c.commitment, a, b)
    ensures Poseidon4Breaks(h, Inputs4(h, a), Inputs4(h, b))
  {
    hide CommitmentInputs, HashOf, ContentOf, UsesPoseidon;
    if a.Some? {
      CommitmentNumber(c, h, a.value);
      InputsShowContent(h, a.value);
    }
    if b.Some? {
      CommitmentNumber(c, h, b.value);
      InputsShowContent(h, b.value);
    }
  }

  predicate NullifierBreaks(h: Primitives, a: Option<NoteParams>, b: Option<NoteParams>) {
    || Poseidon2Breaks(h, Inputs2(h, a), Inputs2(h, b))
    || (a.Some? && b.Some? && Poseidon4Breaks(h, Inputs4(h, a), Inputs4(h, b)))
  }

  /** Notes of different content with one nullifier are a Poseidon collision in the nullifier or in the commitments inside it, or a zero hash. */
  lemma NullifierCollision(c: Crypto, h: Primitives, a: Option<NoteParams>, b: Option<NoteParams>)
    requires UsesPoseidon(c, h) && Collide(c.nullifier, a, b)
    ensures NullifierBreaks(h, a, b)
  {
    hide CommitmentInputs, HashOf, ContentOf, UsesPoseidon, ParseBigInt;
    if a.Some? {
      NullifierNumber(c, h, a.value);
      InputsShowContent(h, a.value);
    }
    if b.Some? {
      NullifierNumber(c, h, b.value);
      InputsShowContent(h, b.value);
    }
  }

  predicate CommitmentsBreak(h: Primitives, a: seq<Option<NoteParams>>, b: seq<Option<NoteParams>>) {
    |a| == |b| && exists i :: 0 <= i < |a| && Poseidon4Breaks(h, Inputs4(h, a[i]), Inputs4(h, b[i]))
  }

  predicate NullifiersBreak(h: Primitives, a: seq<Option<NoteParams>>, b: seq<Option<NoteParams>>) {
    |a| == |b| && exists i :: 0 <= i < |a| && NullifierBreaks(h, a[i], b[i])
  }

  /**
   With the repository's own hashes: an accepted exchange balances for every token however its signed hash is opened, or the
   notes of some slot, the opened one and the one behind it, show inputs on which Poseidon collides or gives zero.
   */
  lemma OpenedHashBalancesOrPoseidonBreaks(c: Crypto, h: Primitives, p: Payload, r: Response, hashed: Hashed,
                                           spent: seq<Option<NoteParams>>, created: seq<Option<NoteParams>>, token: int)
    requires Checked(c, p, r) && UsesPoseidon(c, h)
    requires Recomputed(p, InSlots(c, p, r).value, OutSlots(c, p, r).value) == Some(hashed)
    requires Opens(c.nullifier, spent, hashed.nullifiers) && Opens(c.commitment, created, hashed.commitments)
    ensures ParseBigInt(r.signedMessageHash) == c.signedHash(p, r.(signedMessageHash := ""), hashed) && ChangesParse(p)
    ensures NullifiersBreak(h, spent, InNotes(c, p, r)) || CommitmentsBreak(h, created, OutNotes(c, p, r)) ||
            (&& Congruent(TokenTotal(created, token) - TokenTotal(spent, token), ChangeFor(p, token, |p.tokens|))
             && (FieldAmounts(spent) && FieldAmounts(created) && FieldAmounts(InNotes(c, p, r)) && FieldAmounts(OutNotes(c, p, r)) ==>
                   TokenTotal(created, token) - TokenTotal(spent, token) == ChangeFor(p, token, |p.tokens|)))
  {
    hide Checked, InSlots, OutSlots, InNotes, OutNotes, SignedChange, TokenTotal, Opens, ChangeFor, FieldAmounts, Congruent, Recomputed,
         UsesPoseidon, Collide, NullifierBreaks, Poseidon4Breaks, Inputs4;
    SignedHashBalances(c, p, r, hashed, spent, created, token);
    if SomeCollide(c.nullifier, spent, InNotes(c, p, r)) {
      var i :| 0 <= i < |spent| && Collide(c.nullifier, spent[i], InNotes(c, p, r)[i]);
      NullifierCollision(c, h, spent[i], InNotes(c, p, r)[i]);
      assert NullifiersBreak(h, spent, InNotes(c, p, r));
    } else if SomeCollide(c.commitment, created, OutNotes(c, p, r)) {
      var i :| 0 <= i < |created| && Collide(c.commitment, created[i], OutNotes(c, p, r)[i]);
      CommitmentCollision(c, h, created[i], OutNotes(c, p, r)[i]);
      assert CommitmentsBreak(h, created, OutNotes(c, p, r));
    }
  }

  /** A note the caller owns and the same note given by its stealth address have one commitment, so a speculative list can authorise own notes. */
  lemma SameAddressSameCommitment(h: Primitives, note: NoteParams, address: string)
    requires note.owner.Own? && StealthAddress(h, note) == Some(address) && address != ""
    ensures GetCommitment(h, note.(owner := Stealth(address))) == GetCommitment(h, note)
  {
    hide ParseBigInt;
  }

  // --- What the hashes bind.

  function TimeText(h: Primitives, note: NoteParams): string {
    if note.timeStamp == "" then h.currentTime else note.timeStamp
  }

  /** The same number, as a field element, behind two texts. */
  predicate SameElement(a: string, b: string) {
    ParseBigInt(a).Some? && ParseBigInt(b).Some? && (ParseBigInt(a).value - ParseBigInt(b).value) % FIELD_P == 0
  }

  /** Amount, token, stealth address and time stamp agree as field elements. */
  predicate SameNote(h: Primitives, a: NoteParams, b: NoteParams) {
    && (a.amount - b.amount) % FIELD_P == 0 && SameElement(a.token, b.token)
    && StealthAddress(h, a).Some? && StealthAddress(h, b).Some? && SameElement(StealthAddress(h, a).value, StealthAddress(h, b).value)
    && SameElement(TimeText(h, a), TimeText(h, b))
  }

  lemma InputsAgreeIff(h: Primitives, a: NoteParams, b: NoteParams)
    requires CommitmentInputs(h, a).Some? && CommitmentInputs(h, b).Some?
    ensures CommitmentInputs(h, a) == CommitmentInputs(h, b) <==> SameNote(h, a, b)
  {
    hide ParseBigInt, StealthAddress;
  }

  /** Unless Poseidon collides on them, two notes have one commitment exactly when amount, token, address and time stamp agree. */
  lemma SameCommitmentIff(c: Crypto, h: Primitives, a: NoteParams, b: NoteParams)
    requires UsesPoseidon(c, h) && c.commitment(a).Some? && c.commitment(b).Some?
    requires !Poseidon4Breaks(h, CommitmentInputs(h, a), CommitmentInputs(h, b))
    ensures c.commitment(a) == c.commitment(b) <==> SameNote(h, a, b)
  {
    hide ParseBigInt, ToBeHex, CommitmentInputs, SameNote;
    assert c.commitment(a) == GetCommitment(h, a) && c.commitment(b) == GetCommitment(h, b);
    InputsAgreeIff(h, a, b);
    HexNumber(Hash4(h, CommitmentInputs(h, a).value));
    HexNumber(Hash4(h, CommitmentInputs(h, b).value));
  }

  /** The signature of a commitment under a nullifying key. */
  function Signature(h: Primitives, key: int, commitment: int): int {
    h.poseidon2(key % FIELD_P, commitment % FIELD_P) % FIELD_P
  }

  /** Two different nullifying keys that sign one commitment alike. */
  predicate SignaturesBreak(h: Primitives, a: NoteParams, b: NoteParams) {
    && a.owner.Own? && b.owner.Own? && CommitmentInputs(h, a).Some? && CommitmentInputs(h, b).Some?
    && var k, l := ParseBigInt(a.owner.nullifyingKey), ParseBigInt(b.owner.nullifyingKey);
       && k.Some? && l.Some? && (k.value - l.value) % FIELD_P != 0
       && var commitment := Hash4(h, CommitmentInputs(h, a).value);
          Signature(h, k.value, commitment) == Signature(h, l.value, commitment)
  }

  /** Unless Poseidon collides on them, two own notes have one nullifier exactly when they agree and belong to one nullifying key. */
  lemma SameNullifierIff(c: Crypto, h: Primitives, a: NoteParams, b: NoteParams)
    requires UsesPoseidon(c, h) && c.nullifier(a).Some? && c.nullifier(b).Some?
    requires !Poseidon4Breaks(h, CommitmentInputs(h, a), CommitmentInputs(h, b))
    requires !Poseidon2Breaks(h, NullifierInputs(h, a), NullifierInputs(h, b)) && !SignaturesBreak(h, a, b)
    ensures a.owner.Own? && b.owner.Own?
    ensures c.nullifier(a) == c.nullifier(b) <==> SameNote(h, a, b) && SameElement(a.owner.nullifyingKey, b.owner.nullifyingKey)
  {
    hide ParseBigInt, ToBeHex, CommitmentInputs, SameNote;
    assert c.nullifier(a) == GetNullifier(h, a) && c.nullifier(b) == GetNullifier(h, b);
    InputsAgreeIff(h, a, b);
    var x, y := NullifierInputs(h, a).value, NullifierInputs(h, b).value;
    HexNumber(h.poseidon2(x.0, x.1));
    HexNumber(h.poseidon2(y.0, y.1));
  }

  /** An output slot's entry is a zero exactly when its amount is zero. */
  lemma ZeroEntryIff(c: Crypto, h: Primitives, entry: string, owner: NoteOwner, token: string, amount: string, x: string, y: string, timeStamp: string)
    requires UsesPoseidon(c, h) && IsCommitmentEntry(c, entry, owner, token, amount, x, y, timeStamp)
    ensures entry == "0" <==> ParseBigInt(amount) == Some(0)
  {
    hide ParseBigInt, CommitmentInputs;
    if ParseBigInt(amount) != Some(0) {
      var note := NoteParams(ParseBigInt(amount).value, token, owner, (ParseBigInt(x).value, ParseBigInt(y).value), timeStamp);
      assert c.commitment(note) == GetCommitment(h, note);
    }
  }
}
