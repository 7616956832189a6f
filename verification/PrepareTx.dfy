/** What a prepared transaction may spend, the numbers that are hashed, and the conditions for accepting it. */
module PrepareTx {
  import opened Wrappers
  import opened Numbers
  import opened Enclave
  import opened EnclaveAmounts
  import opened Field
  import opened Positions

  // --- What may be spent.

  function SpeculativeCommitment(c: Crypto, u: SpeculativeNote): Option<Option<string>> {
    var amount := ParseBigInt(u.amount);
    if amount.None? then None
    else if amount.value == 0 then Some(None)
    else
      var hx, hy := ParseBigInt(u.h0.0), ParseBigInt(u.h0.1);
      if hx.None? || hy.None? then None
      else
        var commitment := c.commitment(NoteParams(amount.value, u.token, Stealth(u.stealthAddress), (hx.value, hy.value), u.timeStamp));
        if commitment.None? then None else Some(commitment)
  }

  function Flatten<T>(rows: seq<seq<T>>): seq<T> {
    if rows == [] then [] else Flatten(rows[..|rows| - 1]) + rows[|rows| - 1]
  }

  /** The commitments of the non-zero notes, in order. */
  function SpeculativeCommitments(c: Crypto, notes: seq<SpeculativeNote>): Option<seq<string>> {
    if notes == [] then Some([])
    else
      var rest, last := SpeculativeCommitments(c, notes[..|notes| - 1]), SpeculativeCommitment(c, notes[|notes| - 1]);
      if rest.None? || last.None? then None
      else if last.value.None? then rest
      else Some(rest.value + [last.value.value])
  }

  predicate Worthless(u: SpeculativeNote) {
    ParseBigInt(u.amount) == Some(0)
  }

  /** The commitment of the note the texts name, made out to its stealth address. */
  predicate CommitsSpeculative(c: Crypto, u: SpeculativeNote, commitment: string) {
    && ParseBigInt(u.amount).Some? && ParseBigInt(u.h0.0).Some? && ParseBigInt(u.h0.1).Some?
    && c.commitment(NoteParams(ParseBigInt(u.amount).value, u.token, Stealth(u.stealthAddress),
                               (ParseBigInt(u.h0.0).value, ParseBigInt(u.h0.1).value), u.timeStamp)) == Some(commitment)
  }

  /** One commitment, in the list's order, for each note that is worth something. */
  ghost predicate ListsSpeculative(c: Crypto, notes: seq<SpeculativeNote>, commitments: seq<string>) {
    exists at :: SpeculativeAt(c, notes, commitments, at)
  }

  predicate SpeculativeAt(c: Crypto, notes: seq<SpeculativeNote>, commitments: seq<string>, at: seq<nat>) {
    && Ascending(at, |notes|) && |at| == |commitments|
    && (forall j :: 0 <= j < |at| ==> CommitsSpeculative(c, notes[at[j]], commitments[j]))
    && forall i :: 0 <= i < |notes| ==> (i in at <==> !Worthless(notes[i]))
  }

  lemma {:induction false} SpeculativeLists(c: Crypto, notes: seq<SpeculativeNote>) returns (at: seq<nat>)
    requires SpeculativeCommitments(c, notes).Some?
    ensures SpeculativeAt(c, notes, SpeculativeCommitments(c, notes).value, at)
    decreases |notes|
  {
    hide ParseBigInt;
    if notes == [] {
      at := [];
    } else {
      var n := |notes| - 1;
      at := SpeculativeLists(c, notes[..n]);
      Extended(at, n);
      if !Worthless(notes[n]) { at := at + [n]; }
    }
  }

  method CollectSpeculative(c: Crypto, rows: seq<seq<SpeculativeNote>>) returns (commitments: Option<seq<string>>)
    ensures commitments == SpeculativeCommitments(c, Flatten(rows))
    ensures commitments.Some? ==> ListsSpeculative(c, Flatten(rows), commitments.value)
  {
    hide SpeculativeCommitment, SpeculativeCommitments, Flatten, ListsSpeculative;
    NothingSpeculative(c);
    var found: seq<string> := [];
    ghost var seen: seq<SpeculativeNote> := [];
    assert rows[..0] == [];
    for t := 0 to |rows|
      invariant seen == Flatten(rows[..t]) && SpeculativeCommitments(c, seen) == Some(found)
    {
      FlattenNext(rows, t);
      for i := 0 to |rows[t]|
        invariant seen == Flatten(rows[..t]) + rows[t][..i] && SpeculativeCommitments(c, seen) == Some(found)
      {
        var commitment := SpeculativeCommitment(c, rows[t][i]);
        SpeculativeNext(c, seen, rows[t][i]);
        seen := seen + [rows[t][i]];
        assert seen == Flatten(rows[..t]) + rows[t][..i + 1];
        if commitment.None? {
          FlattenPrefix(rows, t, i + 1);
          SpeculativeFails(c, seen, Flatten(rows));
          return None;
        }
        if commitment.value.Some? {
          found := found + [commitment.value.value];
        }
      }
    }
    assert rows[..|rows|] == rows;
    SpeculativeListed(c, Flatten(rows));
    commitments := Some(found);
  }

  lemma NothingSpeculative(c: Crypto)
    ensures Flatten<SpeculativeNote>([]) == [] && SpeculativeCommitments(c, []) == Some([])
  {
  }

  lemma SpeculativeNext(c: Crypto, seen: seq<SpeculativeNote>, u: SpeculativeNote)
    ensures var rest, last := SpeculativeCommitments(c, seen), SpeculativeCommitment(c, u);
            SpeculativeCommitments(c, seen + [u]) ==
            if rest.None? || last.None? then None else if last.value.None? then rest else Some(rest.value + [last.value.value])
  {
    hide SpeculativeCommitment;
    assert (seen + [u])[..|seen|] == seen;
  }

  lemma SpeculativeListed(c: Crypto, notes: seq<SpeculativeNote>)
    requires SpeculativeCommitments(c, notes).Some?
    ensures ListsSpeculative(c, notes, SpeculativeCommitments(c, notes).value)
  {
    hide SpeculativeAt, SpeculativeCommitments;
    var at := SpeculativeLists(c, notes);
  }

  lemma {:induction false} FlattenPrefix<T>(rows: seq<seq<T>>, t: nat, i: nat)
    requires t < |rows| && i <= |rows[t]|
    ensures Flatten(rows[..t]) + rows[t][..i] <= Flatten(rows)
    decreases |rows|
  {
    var n := |rows| - 1;
    if t < n {
      FlattenPrefix(rows[..n], t, i);
      assert rows[..n][..t] == rows[..t];
    }
  }

  lemma {:induction false} SpeculativeFails(c: Crypto, seen: seq<SpeculativeNote>, all: seq<SpeculativeNote>)
    requires seen <= all && SpeculativeCommitments(c, seen).None?
    ensures SpeculativeCommitments(c, all).None?
    decreases |all|
  {
    hide SpeculativeCommitment;
    if seen != all { SpeculativeFails(c, seen, all[..|all| - 1]); }
  }

  /** An explicit list, else the speculative notes, else nothing when empty notes are forced, else no restriction. */
  function Authorised(c: Crypto, p: Payload): Option<Option<seq<string>>> {
    if p.inputCommitments.Some? then Some(p.inputCommitments)
    else if p.speculative.Some? then
      var found := SpeculativeCommitments(c, Flatten(p.speculative.value));
      if found.None? then None else Some(found)
    else Some(if p.forceEmptyUtxos then Some([]) else None)
  }

  // --- What is hashed.

  function ParseAll(texts: seq<string>): Option<seq<int>> {
    if texts == [] then Some([])
    else
      var rest, last := ParseAll(texts[..|texts| - 1]), ParseBigInt(texts[|texts| - 1]);
      if rest.None? || last.None? then None else Some(rest.value + [last.value])
  }

  lemma {:induction false} ParsedAt(texts: seq<string>, i: nat)
    requires ParseAll(texts).Some?
    ensures |ParseAll(texts).value| == |texts|
    ensures i < |texts| ==> ParseBigInt(texts[i]) == Some(ParseAll(texts).value[i])
    decreases |texts|
  {
    hide ParseBigInt;
    if texts != [] { ParsedAt(texts[..|texts| - 1], i); }
  }

  lemma {:induction false} ParseAllIff(texts: seq<string>)
    ensures ParseAll(texts).Some? <==> forall i :: 0 <= i < |texts| ==> ParseBigInt(texts[i]).Some?
    decreases |texts|
  {
    hide ParseBigInt;
    if texts != [] { ParseAllIff(texts[..|texts| - 1]); }
  }

  /** Where row t starts in the flat list. */
  function Offset<T>(rows: seq<seq<T>>, t: nat): nat
    requires t <= |rows|
  {
    if t == 0 then 0 else Offset(rows, t - 1) + |rows[t - 1]|
  }

  lemma {:induction false} OffsetOfPrefix<T>(rows: seq<seq<T>>, n: nat, t: nat)
    requires t <= n <= |rows|
    ensures Offset(rows[..n], t) == Offset(rows, t)
    decreases t
  {
    if t > 0 { OffsetOfPrefix(rows, n, t - 1); }
  }

  lemma {:induction false} FlattenLength<T>(rows: seq<seq<T>>)
    ensures |Flatten(rows)| == Offset(rows, |rows|)
    decreases |rows|
  {
    if rows != [] {
      var n := |rows| - 1;
      FlattenLength(rows[..n]);
      OffsetOfPrefix(rows, n, n);
    }
  }

  lemma {:induction false} FlattenAt<T>(rows: seq<seq<T>>, t: nat, i: nat)
    requires t < |rows| && i < |rows[t]|
    ensures Offset(rows, t) + i < |Flatten(rows)| && Flatten(rows)[Offset(rows, t) + i] == rows[t][i]
    decreases |rows|
  {
    var n := |rows| - 1;
    FlattenLength(rows[..n]);
    OffsetOfPrefix(rows, n, n);
    OffsetOfPrefix(rows, n, t);
    if t < n { FlattenAt(rows[..n], t, i); }
  }

  predicate NumberAt(rows: seq<seq<string>>, values: seq<int>, t: nat, i: nat)
    requires t < |rows| && i < |rows[t]|
  {
    Offset(rows, t) + i < |values| && ParseBigInt(rows[t][i]) == Some(values[Offset(rows, t) + i])
  }

  /** The numbers of all texts, row after row. */
  predicate FlatNumbers(rows: seq<seq<string>>, values: seq<int>) {
    && |values| == Offset(rows, |rows|)
    && forall t, i :: 0 <= t < |rows| && 0 <= i < |rows[t]| ==> NumberAt(rows, values, t, i)
  }

  lemma FlatNumbersHold(rows: seq<seq<string>>)
    requires ParseAll(Flatten(rows)).Some?
    ensures FlatNumbers(rows, ParseAll(Flatten(rows)).value)
  {
    hide ParseBigInt, ParseAll, Flatten, Offset;
    FlattenLength(rows);
    ParsedAt(Flatten(rows), 0);
    forall t, i | 0 <= t < |rows| && 0 <= i < |rows[t]| ensures NumberAt(rows, ParseAll(Flatten(rows)).value, t, i) {
      FlattenAt(rows, t, i);
      ParsedAt(Flatten(rows), Offset(rows, t) + i);
    }
  }

  /** Fails exactly when some text is no number. */
  lemma FlatFailsIff(rows: seq<seq<string>>)
    ensures ParseAll(Flatten(rows)).Some? <==> forall t, i :: 0 <= t < |rows| && 0 <= i < |rows[t]| ==> ParseBigInt(rows[t][i]).Some?
  {
    hide ParseBigInt, ParseAll;
    ParseAllIff(Flatten(rows));
    forall t, i | ParseAll(Flatten(rows)).Some? && 0 <= t < |rows| && 0 <= i < |rows[t]| ensures ParseBigInt(rows[t][i]).Some? {
      FlattenAt(rows, t, i);
    }
    if forall t, i :: 0 <= t < |rows| && 0 <= i < |rows[t]| ==> ParseBigInt(rows[t][i]).Some? {
      forall k | 0 <= k < |Flatten(rows)| ensures ParseBigInt(Flatten(rows)[k]).Some? {
        var t, i := FlattenFrom(rows, k);
      }
    }
  }

  lemma {:induction false} FlattenFrom<T>(rows: seq<seq<T>>, k: nat) returns (t: nat, i: nat)
    requires k < |Flatten(rows)|
    ensures t < |rows| && i < |rows[t]| && rows[t][i] == Flatten(rows)[k]
    decreases |rows|
  {
    var n := |rows| - 1;
    if k < |Flatten(rows[..n])| {
      t, i := FlattenFrom(rows[..n], k);
    } else {
      t, i := n, k - |Flatten(rows[..n])|;
    }
  }

  method FlatToBigInts(rows: seq<seq<string>>) returns (values: Option<seq<int>>)
    ensures values == ParseAll(Flatten(rows))
    ensures values.Some? <==> forall t, i :: 0 <= t < |rows| && 0 <= i < |rows[t]| ==> ParseBigInt(rows[t][i]).Some?
    ensures values.Some? ==> FlatNumbers(rows, values.value)
  {
    hide ParseBigInt, FlatNumbers, ParseAll, Flatten;
    NothingParsed();
    var out: seq<int> := [];
    ghost var seen: seq<string> := [];
    assert rows[..0] == [];
    for t := 0 to |rows|
      invariant seen == Flatten(rows[..t]) && ParseAll(seen) == Some(out)
    {
      FlattenNext(rows, t);
      for i := 0 to |rows[t]|
        invariant seen == Flatten(rows[..t]) + rows[t][..i] && ParseAll(seen) == Some(out)
      {
        var n := ParseBigInt(rows[t][i]);
        ParseAllNext(seen, rows[t][i]);
        seen := seen + [rows[t][i]];
        assert seen == Flatten(rows[..t]) + rows[t][..i + 1];
        if n.None? {
          FlattenPrefix(rows, t, i + 1);
          ParseAllFails(seen, Flatten(rows));
          FlatFailsIff(rows);
          return None;
        }
        out := out + [n.value];
      }
    }
    assert rows[..|rows|] == rows;
    FlatNumbersHold(rows);
    FlatFailsIff(rows);
    values := Some(out);
  }

  lemma NothingParsed()
    ensures Flatten<string>([]) == [] && ParseAll([]) == Some([])
  {
  }

  lemma FlattenNext<T>(rows: seq<seq<T>>, t: nat)
    requires t < |rows|
    ensures Flatten(rows[..t + 1]) == Flatten(rows[..t]) + rows[t]
  {
    assert rows[..t + 1][..t] == rows[..t];
  }

  lemma ParseAllNext(seen: seq<string>, text: string)
    ensures ParseAll(seen + [text]) ==
            if ParseAll(seen).None? || ParseBigInt(text).None? then None else Some(ParseAll(seen).value + [ParseBigInt(text).value])
  {
    hide ParseBigInt;
    assert (seen + [text])[..|seen|] == seen;
  }

  lemma {:induction false} ParseAllFails(seen: seq<string>, all: seq<string>)
    requires seen <= all && ParseAll(seen).None?
    ensures ParseAll(all).None?
    decreases |all|
  {
    hide ParseBigInt;
    if seen != all { ParseAllFails(seen, all[..|all| - 1]); }
  }

  /** The hashed data recomputed from input and output slots; none when a hash is not a number or a change does not parse. */
  function Recomputed(p: Payload, ins: seq<seq<Slot>>, outs: seq<seq<OutSlot>>): Option<Hashed> {
    var nullifiers, commitments := ParseAll(Flatten(NullifierRows(ins))), ParseAll(Flatten(CommitmentRows(outs)));
    if nullifiers.None? || commitments.None? || !ChangesParse(p) then None
    else Some(Hashed(nullifiers.value, commitments.value, WrappedChanges(p)))
  }

  function WrappedChanges(p: Payload): seq<int>
    requires ChangesParse(p)
  {
    seq(|p.tokens|, t requires 0 <= t < |p.tokens| => Wrap(SignedChange(p, t).value))
  }

  /** Every check that two kinds of exchange share passes, and the answered hash is the hash of the recomputed data. */
  predicate Checked(c: Crypto, p: Payload, r: Response) {
    var may, ins, outs := Authorised(c, p), InSlots(c, p, r), OutSlots(c, p, r);
    && may.Some? && ins.Some? && outs.Some?
    && MatchesAuthorised(Spent(ins.value), may.value)
    && AmountsConserve(p, r)
    && var hashed := Recomputed(p, ins.value, outs.value);
       && hashed.Some?
       && c.signedHash(p, Unsigned(r), hashed.value).Some?
       && ParseBigInt(r.signedMessageHash) == c.signedHash(p, Unsigned(r), hashed.value)
  }

  /** A response to a prepared transaction also has to show a stealth pair of the caller's. */
  predicate Accepted(c: Crypto, p: Payload, r: Response) {
    c.stealthPairOwned(p, Unsigned(r)) && Checked(c, p, r)
  }

  method AuthorisedInputs(c: Crypto, p: Payload) returns (may: Option<Option<seq<string>>>)
    ensures may == Authorised(c, p)
    ensures p.inputCommitments.Some? ==> may == Some(p.inputCommitments)
    ensures p.inputCommitments.None? && p.speculative.Some? && may.Some? ==>
              may.value.Some? && ListsSpeculative(c, Flatten(p.speculative.value), may.value.value)
    ensures p.inputCommitments.None? && p.speculative.None? ==> may == Some(if p.forceEmptyUtxos then Some([]) else None)
  {
    if p.inputCommitments.Some? {
      return Some(p.inputCommitments);
    }
    if p.speculative.Some? {
      var found := CollectSpeculative(c, p.speculative.value);
      return if found.None? then None else Some(found);
    }
    may := Some(if p.forceEmptyUtxos then Some([]) else None);
  }
}
