/**
 Choosing and padding input notes: per token, notes are sorted by falling amount and padded with zero
 notes; the rows are then made a rectangle by padding short rows and cutting long ones.
 */
module Padding {
  import opened Wrappers
  import opened Utxos

  const MIN_INPUT: nat := 2
  const FULL_INPUT: nat := 6

  function ZeroNote(token: string): Utxo {
    Utxo(0, token, "", Self)
  }

  function ZeroNotes(token: string, n: nat): seq<Utxo> {
    seq(n, _ => ZeroNote(token))
  }

  lemma {:induction false} ZeroNotesTotal(token: string, n: nat)
    ensures Total(ZeroNotes(token, n)) == 0
  {
    if n > 0 {
      ZeroNotesTotal(token, n - 1);
      assert ZeroNotes(token, n)[..n - 1] == ZeroNotes(token, n - 1);
    }
  }

  // --- The stable sort by falling amount.

  /** x goes after every note that is not smaller. */
  function InsertDescending(notes: seq<Utxo>, x: Utxo): seq<Utxo> {
    if notes == [] || notes[|notes| - 1].amount >= x.amount then notes + [x]
    else InsertDescending(notes[..|notes| - 1], x) + [notes[|notes| - 1]]
  }

  function SortDescending(notes: seq<Utxo>): seq<Utxo> {
    if notes == [] then [] else InsertDescending(SortDescending(notes[..|notes| - 1]), notes[|notes| - 1])
  }

  ghost predicate Descending(notes: seq<Utxo>) {
    forall i, j :: 0 <= i < j < |notes| ==> notes[i].amount >= notes[j].amount
  }

  /** The notes of one amount, in order. */
  function WithAmount(notes: seq<Utxo>, amount: int): seq<Utxo> {
    if notes == [] then []
    else
      var rest, last := WithAmount(notes[..|notes| - 1], amount), notes[|notes| - 1];
      if last.amount == amount then rest + [last] else rest
  }

  lemma {:induction false} InsertDescendingSorts(notes: seq<Utxo>, x: Utxo)
    requires Descending(notes)
    ensures Descending(InsertDescending(notes, x))
    ensures multiset(InsertDescending(notes, x)) == multiset(notes) + multiset{x}
    decreases |notes|
  {
    if notes == [] || notes[|notes| - 1].amount >= x.amount {
    } else {
      var front, last := notes[..|notes| - 1], notes[|notes| - 1];
      var r := InsertDescending(front, x);
      InsertDescendingSorts(front, x);
      LastBag(notes);
      AllAtLeast(r, front, x, last.amount);
    }
  }

  lemma AllAtLeast(r: seq<Utxo>, front: seq<Utxo>, x: Utxo, bound: int)
    requires multiset(r) == multiset(front) + multiset{x} && x.amount >= bound
    requires forall i :: 0 <= i < |front| ==> front[i].amount >= bound
    ensures forall i :: 0 <= i < |r| ==> r[i].amount >= bound
  {
    forall i | 0 <= i < |r| ensures r[i].amount >= bound {
      assert r[i] in multiset(r);
      if r[i] != x { assert r[i] in multiset(front); }
    }
  }

  lemma {:induction false} InsertDescendingStable(notes: seq<Utxo>, x: Utxo, a: int)
    ensures WithAmount(InsertDescending(notes, x), a) == WithAmount(notes, a) + if x.amount == a then [x] else []
    decreases |notes|
  {
    hide WithAmount;
    if notes == [] || notes[|notes| - 1].amount >= x.amount {
      WithAmountNext(notes, x, a);
    } else {
      var front, last := notes[..|notes| - 1], notes[|notes| - 1];
      InsertDescendingStable(front, x, a);
      WithAmountNext(InsertDescending(front, x), last, a);
      WithAmountNext(front, last, a);
      assert notes == front + [last];
    }
  }

  lemma WithAmountNext(notes: seq<Utxo>, x: Utxo, a: int)
    ensures WithAmount(notes + [x], a) == WithAmount(notes, a) + if x.amount == a then [x] else []
  {
    assert (notes + [x])[..|notes|] == notes;
  }

  /** Sorted, the same notes, and notes of equal amount in their original order. */
  lemma {:induction false} SortDescendingSorts(notes: seq<Utxo>)
    ensures Descending(SortDescending(notes)) && multiset(SortDescending(notes)) == multiset(notes)
    ensures forall a :: WithAmount(SortDescending(notes), a) == WithAmount(notes, a)
    decreases |notes|
  {
    if notes != [] {
      var front, last := notes[..|notes| - 1], notes[|notes| - 1];
      SortDescendingSorts(front);
      InsertDescendingSorts(SortDescending(front), last);
      LastBag(notes);
      forall a ensures WithAmount(SortDescending(notes), a) == WithAmount(notes, a) {
        InsertDescendingStable(SortDescending(front), last, a);
      }
    }
  }

  // --- One row.

  function PaddedLength(n: nat): nat {
    if n <= MIN_INPUT then MIN_INPUT else if n < FULL_INPUT then FULL_INPUT else n
  }

  function SortedRow(notes: seq<Utxo>, token: string): seq<Utxo> {
    SortDescending(notes) + ZeroNotes(token, if PaddedLength(|notes|) > |notes| then PaddedLength(|notes|) - |notes| else 0)
  }

  /** Sorts, then appends zero notes while there are fewer than two, or more than two but fewer than six. */
  method SortAndPadUtxos(notes: seq<Utxo>, token: string) returns (row: seq<Utxo>)
    ensures row == SortedRow(notes, token)
    ensures |row| == PaddedLength(|notes|)
  {
    hide SortDescending, Descending;
    SortedRowLength(notes, token);
    row := SortDescending(notes);
    var pads := 0;
    while |row| < MIN_INPUT || (|row| > MIN_INPUT && |row| < FULL_INPUT)
      invariant row == SortDescending(notes) + ZeroNotes(token, pads)
      invariant |row| == |notes| + pads && (pads > 0 ==> |row| <= PaddedLength(|notes|))
      decreases FULL_INPUT - |row|
    {
      row := row + [ZeroNote(token)];
      pads := pads + 1;
    }
  }

  lemma SortedRowLength(notes: seq<Utxo>, token: string)
    ensures |SortedRow(notes, token)| == PaddedLength(|notes|)
    ensures |SortDescending(notes)| == |notes|
  {
    SortDescendingSorts(notes);
    assert |multiset(SortDescending(notes))| == |multiset(notes)|;
  }

  /** Padding changes no total; with non-negative amounts the row is descending to its end. */
  lemma SortedRowTotal(notes: seq<Utxo>, token: string)
    ensures Total(SortedRow(notes, token)) == Total(notes)
    ensures NonNegative(notes) ==> Descending(SortedRow(notes, token)) && NonNegative(SortedRow(notes, token))
    ensures multiset(notes) <= multiset(SortedRow(notes, token))
  {
    hide SortDescending;
    var sorted := SortDescending(notes);
    var pads := SortedRow(notes, token)[|sorted|..];
    SortDescendingSorts(notes);
    TotalOfPermutation(sorted, notes);
    ZeroNotesTotal(token, |pads|);
    assert pads == ZeroNotes(token, |pads|);
    TotalConcat(sorted, pads);
    if NonNegative(notes) {
      forall i | 0 <= i < |sorted| ensures sorted[i].amount >= 0 {
        assert sorted[i] in multiset(notes);
        var k :| 0 <= k < |notes| && notes[k] == sorted[i];
      }
    }
  }

  /** The first m notes of a descending row are worth at least any m of its notes, or any fewer if none is negative. */
  lemma {:induction false} TopIsBest(row: seq<Utxo>, pick: seq<Utxo>, m: nat)
    requires Descending(row) && multiset(pick) <= multiset(row) && |pick| <= m <= |row|
    requires |pick| == m || NonNegative(row)
    ensures Total(pick) <= Total(row[..m])
    decreases |row|, 1
  {
    if m == 0 {
      assert pick == [];
    } else if row[|row| - 1] in pick {
      TopUsingLast(row, pick, m);
    } else {
      TopNotUsingLast(row, pick, m);
    }
  }

  lemma {:induction false} TopUsingLast(row: seq<Utxo>, pick: seq<Utxo>, m: nat)
    requires Descending(row) && multiset(pick) <= multiset(row) && |pick| <= m <= |row| && m > 0
    requires |pick| == m || NonNegative(row)
    requires row[|row| - 1] in pick
    ensures Total(pick) <= Total(row[..m])
    decreases |row|, 0
  {
    hide Total, Without;
    var front, x := row[..|row| - 1], row[|row| - 1];
    var j :| 0 <= j < |pick| && pick[j] == x;
    LastBag(row);
    WithoutBag(pick, j);
    BagCancel(multiset(Without(pick, j)), multiset(front), x);
    TopIsBest(front, Without(pick, j), m - 1);
    WithoutTotal(pick, j);
    TopTotal(row, m);
    assert row[m - 1].amount >= x.amount;
  }

  lemma TopTotal(row: seq<Utxo>, m: nat)
    requires 0 < m <= |row|
    ensures Total(row[..m]) == Total(row[..|row| - 1][..m - 1]) + row[m - 1].amount
  {
    assert row[..m][..m - 1] == row[..|row| - 1][..m - 1];
  }

  lemma WithoutTotal(notes: seq<Utxo>, i: nat)
    requires i < |notes|
    ensures Total(notes) == Total(Without(notes, i)) + notes[i].amount
  {
    TotalWithout(notes, i);
  }

  lemma {:induction false} TopNotUsingLast(row: seq<Utxo>, pick: seq<Utxo>, m: nat)
    requires Descending(row) && multiset(pick) <= multiset(row) && |pick| <= m <= |row| && m > 0
    requires |pick| == m || NonNegative(row)
    requires row[|row| - 1] !in pick
    ensures Total(pick) <= Total(row[..m])
    decreases |row|, 0
  {
    hide Total;
    var front, x := row[..|row| - 1], row[|row| - 1];
    LastBag(row);
    NotUsingLast(front, x, pick);
    SubbagLength(pick, front);
    if m <= |front| {
      TopIsBest(front, pick, m);
      assert front[..m] == row[..m];
    } else {
      TopIsBest(front, pick, m - 1);
      TopTotal(row, m);
    }
  }

  lemma NotUsingLast(front: seq<Utxo>, x: Utxo, pick: seq<Utxo>)
    requires multiset(pick) <= multiset(front) + multiset{x} && x !in pick
    ensures multiset(pick) <= multiset(front)
  {
    forall y ensures multiset(pick)[y] <= multiset(front)[y] {
      if y == x { assert x !in multiset(pick); }
    }
  }

  // --- Notes by token.

  /** Notes are grouped by mint on Solana, where spelling matters, and by token address in lower case elsewhere. */
  function KeyOf(solana: bool, address: string): string {
    if solana then address else Lower(address)
  }

  function AddressOf(solana: bool, note: Utxo): string {
    if solana then note.mint else note.token
  }

  predicate OfToken(solana: bool, note: Utxo, key: string) {
    AddressOf(solana, note) != "" && KeyOf(solana, AddressOf(solana, note)) == key
  }

  function NotesOf(solana: bool, notes: seq<Utxo>, key: string): seq<Utxo> {
    if notes == [] then []
    else
      var rest, last := NotesOf(solana, notes[..|notes| - 1], key), notes[|notes| - 1];
      if OfToken(solana, last, key) then rest + [last] else rest
  }

  // --- Which notes make up a group.

  /** Two addresses of one token: on Solana the same text, elsewhere the same up to case. */
  predicate SameToken(solana: bool, a: string, b: string) {
    if solana then a == b else SameSpelling(a, b)
  }

  /** A note of the token: by its mint on Solana, by its token address elsewhere. A note without that address is of no token. */
  predicate Belongs(solana: bool, note: Utxo, token: string) {
    if solana then note.mint != "" && note.mint == token else note.token != "" && SameSpelling(note.token, token)
  }

  predicate HasToken(solana: bool, note: Utxo) {
    if solana then note.mint != "" else note.token != ""
  }

  /** What the notes of one token hold together. */
  function Holding(solana: bool, notes: seq<Utxo>, token: string): int {
    if notes == [] then 0
    else Holding(solana, notes[..|notes| - 1], token) + if Belongs(solana, notes[|notes| - 1], token) then notes[|notes| - 1].amount else 0
  }

  /** As many of each note as the wallet has of it if it is of the token, and none otherwise. */
  ghost predicate AllOfToken(solana: bool, notes: seq<Utxo>, token: string, own: seq<Utxo>) {
    forall x :: multiset(own)[x] == if Belongs(solana, x, token) then multiset(notes)[x] else 0
  }

  /** The token's notes by falling amount, then zero notes; together worth what the token's notes hold. */
  ghost predicate IsGroup(solana: bool, notes: seq<Utxo>, token: string, row: seq<Utxo>) {
    && (exists n :: 0 <= n <= |row| && AllOfToken(solana, notes, token, row[..n]) && Descending(row[..n]) && WorthNothing(row[n..])
                    && |row| == (if n <= 2 then 2 else if n < 6 then 6 else n))
    && Total(row) == Holding(solana, notes, token)
  }

  predicate WorthNothing(pads: seq<Utxo>) {
    forall i :: 0 <= i < |pads| ==> pads[i].amount == 0 && pads[i].owner == Self
  }

  /** One group for each token wanted or held, under one spelling of it; so each note with an address is in exactly one group. */
  ghost predicate GroupedByToken(solana: bool, notes: seq<Utxo>, ensured: seq<string>, perToken: map<string, seq<Utxo>>) {
    && (forall key :: key in perToken ==> IsGroup(solana, notes, key, perToken[key]))
    && (forall key, key' :: key in perToken && key' in perToken && SameToken(solana, key, key') ==> key == key')
    && (forall i :: 0 <= i < |ensured| ==> HasGroup(solana, notes, ensured[i], perToken))
    && (forall i :: 0 <= i < |notes| ==> IsGrouped(solana, notes[i], perToken))
    && (forall key :: key in perToken ==> IsWantedOrHeld(solana, notes, ensured, key))
  }

  /** The token's group is there, under some spelling. */
  ghost predicate HasGroup(solana: bool, notes: seq<Utxo>, token: string, perToken: map<string, seq<Utxo>>) {
    exists key :: key in perToken && SameToken(solana, key, token) && IsGroup(solana, notes, token, perToken[key])
  }

  predicate IsGrouped(solana: bool, note: Utxo, perToken: map<string, seq<Utxo>>) {
    HasToken(solana, note) ==> exists key :: key in perToken && Belongs(solana, note, key)
  }

  predicate IsWantedOrHeld(solana: bool, notes: seq<Utxo>, ensured: seq<string>, key: string) {
    || (exists i :: 0 <= i < |ensured| && SameToken(solana, key, ensured[i]))
    || (exists i :: 0 <= i < |notes| && Belongs(solana, notes[i], key))
  }

  lemma BelongsIff(solana: bool, note: Utxo, token: string)
    ensures OfToken(solana, note, KeyOf(solana, token)) <==> Belongs(solana, note, token)
  {
    hide Lower;
    EqualFoldIff(note.token, token);
  }

  lemma KeyIsItsOwn(solana: bool, token: string)
    ensures KeyOf(solana, KeyOf(solana, token)) == KeyOf(solana, token)
  {
    hide Lower;
    LowerTwice(token);
  }

  lemma SameKeyIff(solana: bool, a: string, b: string)
    ensures SameToken(solana, a, b) <==> KeyOf(solana, a) == KeyOf(solana, b)
  {
    hide Lower;
    EqualFoldIff(a, b);
  }

  lemma {:induction false} CountOfToken(solana: bool, notes: seq<Utxo>, token: string, x: Utxo)
    ensures multiset(NotesOf(solana, notes, KeyOf(solana, token)))[x] == if Belongs(solana, x, token) then multiset(notes)[x] else 0
    decreases |notes|
  {
    hide KeyOf, OfToken, Belongs;
    if notes != [] {
      var rest, last := notes[..|notes| - 1], notes[|notes| - 1];
      CountOfToken(solana, rest, token, x);
      BelongsIff(solana, last, token);
      LastBag(notes);
    }
  }

  lemma {:induction false} TotalOfToken(solana: bool, notes: seq<Utxo>, token: string)
    ensures Total(NotesOf(solana, notes, KeyOf(solana, token))) == Holding(solana, notes, token)
    decreases |notes|
  {
    hide KeyOf, OfToken, Belongs;
    if notes != [] {
      var rest, last := notes[..|notes| - 1], notes[|notes| - 1];
      TotalOfToken(solana, rest, token);
      BelongsIff(solana, last, token);
      var own := NotesOf(solana, rest, KeyOf(solana, token));
      assert (own + [last])[..|own|] == own;
    }
  }

  lemma NotesOfAre(solana: bool, notes: seq<Utxo>, token: string)
    ensures AllOfToken(solana, notes, token, NotesOf(solana, notes, KeyOf(solana, token)))
    ensures Total(NotesOf(solana, notes, KeyOf(solana, token))) == Holding(solana, notes, token)
  {
    hide KeyOf, NotesOf, Belongs, Holding, Total;
    TotalOfToken(solana, notes, token);
    forall x ensures multiset(NotesOf(solana, notes, KeyOf(solana, token)))[x] == if Belongs(solana, x, token) then multiset(notes)[x] else 0 {
      CountOfToken(solana, notes, token, x);
    }
  }

  lemma GroupIs(solana: bool, notes: seq<Utxo>, token: string)
    ensures IsGroup(solana, notes, token, SortedRow(NotesOf(solana, notes, KeyOf(solana, token)), KeyOf(solana, token)))
  {
    hide NotesOf, KeyOf, Holding, Descending, Total, SortDescending, AllOfToken, WorthNothing;
    var key := KeyOf(solana, token);
    var own := NotesOf(solana, notes, key);
    var row := SortedRow(own, key);
    NotesOfAre(solana, notes, token);
    SortDescendingSorts(own);
    SortedRowTotal(own, key);
    SortedRowLength(own, key);
    var n := |own|;
    SortedRowParts(own, key);
    SameCounts(solana, notes, token, own, SortDescending(own));
  }

  lemma SortedRowParts(own: seq<Utxo>, key: string)
    ensures var row, n := SortedRow(own, key), |own|;
            n <= |row| && row[..n] == SortDescending(own) && WorthNothing(row[n..])
  {
    hide SortDescending;
    SortedRowLength(own, key);
  }

  lemma SameCounts(solana: bool, notes: seq<Utxo>, token: string, own: seq<Utxo>, sorted: seq<Utxo>)
    requires AllOfToken(solana, notes, token, own) && multiset(sorted) == multiset(own)
    ensures AllOfToken(solana, notes, token, sorted)
  {
    hide Belongs;
  }

  lemma GroupsHold(solana: bool, notes: seq<Utxo>, ensured: seq<string>, perToken: map<string, seq<Utxo>>)
    requires forall key :: key in perToken ==> perToken[key] == SortedRow(NotesOf(solana, notes, key), key)
    requires forall key :: key in perToken <==> WantedKey(solana, ensured, key) || HeldKey(solana, notes, key)
    ensures GroupedByToken(solana, notes, ensured, perToken)
  {
    hide NotesOf, KeyOf, SortedRow, IsGroup, WantedKey, HeldKey, SameToken, HasGroup, IsGrouped, IsWantedOrHeld;
    forall key | key in perToken ensures IsGroup(solana, notes, key, perToken[key]) && IsWantedOrHeld(solana, notes, ensured, key) && KeyOf(solana, key) == key {
      KeysAreTheirOwn(solana, notes, ensured, key);
      GroupIs(solana, notes, key);
      KeyIsWantedOrHeld(solana, notes, ensured, key);
    }
    forall key, key' | key in perToken && key' in perToken && SameToken(solana, key, key') ensures key == key' { SameKeyIff(solana, key, key'); }
    forall i | 0 <= i < |ensured| ensures HasGroup(solana, notes, ensured[i], perToken) { EnsuredHasGroup(solana, notes, ensured, perToken, i); }
    forall i | 0 <= i < |notes| ensures IsGrouped(solana, notes[i], perToken) { NoteIsGrouped(solana, notes, ensured, perToken, i); }
  }

  lemma EnsuredHasGroup(solana: bool, notes: seq<Utxo>, ensured: seq<string>, perToken: map<string, seq<Utxo>>, i: nat)
    requires i < |ensured|
    requires forall key :: key in perToken ==> perToken[key] == SortedRow(NotesOf(solana, notes, key), key)
    requires forall key :: WantedKey(solana, ensured, key) ==> key in perToken
    ensures HasGroup(solana, notes, ensured[i], perToken)
  {
    hide NotesOf, KeyOf, SortedRow, IsGroup, SameToken;
    var key := KeyOf(solana, ensured[i]);
    assert WantedKey(solana, ensured, key);
    KeyIsItsOwn(solana, ensured[i]);
    SameKeyIff(solana, key, ensured[i]);
    GroupIs(solana, notes, ensured[i]);
  }

  lemma NoteIsGrouped(solana: bool, notes: seq<Utxo>, ensured: seq<string>, perToken: map<string, seq<Utxo>>, i: nat)
    requires i < |notes| && forall key :: HeldKey(solana, notes, key) ==> key in perToken
    ensures IsGrouped(solana, notes[i], perToken)
  {
    hide KeyOf, AddressOf, HasToken, OfToken, Belongs;
    if HasToken(solana, notes[i]) {
      var key := KeyOf(solana, AddressOf(solana, notes[i]));
      HeldNote(solana, notes[i]);
      assert HeldKey(solana, notes, key);
      BelongsIff(solana, notes[i], key);
    }
  }

  lemma KeyIsWantedOrHeld(solana: bool, notes: seq<Utxo>, ensured: seq<string>, key: string)
    requires WantedKey(solana, ensured, key) || HeldKey(solana, notes, key)
    ensures IsWantedOrHeld(solana, notes, ensured, key)
  {
    hide KeyOf, OfToken, Belongs, SameToken;
    KeysAreTheirOwn(solana, notes, ensured, key);
    if WantedKey(solana, ensured, key) {
      var i :| 0 <= i < |ensured| && KeyOf(solana, ensured[i]) == key;
      SameKeyIff(solana, key, ensured[i]);
    } else {
      var i :| 0 <= i < |notes| && OfToken(solana, notes[i], key);
      BelongsIff(solana, notes[i], key);
    }
  }

  predicate WantedKey(solana: bool, ensured: seq<string>, key: string) {
    exists i :: 0 <= i < |ensured| && KeyOf(solana, ensured[i]) == key
  }

  predicate HeldKey(solana: bool, notes: seq<Utxo>, key: string) {
    exists i :: 0 <= i < |notes| && OfToken(solana, notes[i], key)
  }

  lemma HeldNext(solana: bool, notes: seq<Utxo>, i: nat, key: string)
    requires i < |notes|
    ensures HeldKey(solana, notes[..i + 1], key) <==> HeldKey(solana, notes[..i], key) || OfToken(solana, notes[i], key)
  {
    hide OfToken;
    var more, fewer := notes[..i + 1], notes[..i];
    if HeldKey(solana, fewer, key) {
      var k :| 0 <= k < |fewer| && OfToken(solana, fewer[k], key);
      assert more[k] == fewer[k];
    }
    if OfToken(solana, notes[i], key) { assert more[i] == notes[i]; }
    if HeldKey(solana, more, key) {
      var k :| 0 <= k < |more| && OfToken(solana, more[k], key);
      if k < i { assert fewer[k] == more[k]; }
    }
  }

  lemma WantedNext(solana: bool, ensured: seq<string>, i: nat, key: string)
    requires i < |ensured|
    ensures WantedKey(solana, ensured[..i + 1], key) <==> WantedKey(solana, ensured[..i], key) || KeyOf(solana, ensured[i]) == key
  {
    hide KeyOf;
    var more, fewer := ensured[..i + 1], ensured[..i];
    if WantedKey(solana, fewer, key) {
      var k :| 0 <= k < |fewer| && KeyOf(solana, fewer[k]) == key;
      assert more[k] == fewer[k];
    }
    if KeyOf(solana, ensured[i]) == key { assert more[i] == ensured[i]; }
    if WantedKey(solana, more, key) {
      var k :| 0 <= k < |more| && KeyOf(solana, more[k]) == key;
      if k < i { assert fewer[k] == more[k]; }
    }
  }

  lemma HeldNote(solana: bool, note: Utxo)
    requires HasToken(solana, note)
    ensures OfToken(solana, note, KeyOf(solana, AddressOf(solana, note)))
    ensures KeyOf(solana, KeyOf(solana, AddressOf(solana, note))) == KeyOf(solana, AddressOf(solana, note))
  {
    KeyIsItsOwn(solana, AddressOf(solana, note));
  }

  lemma KeysAreTheirOwn(solana: bool, notes: seq<Utxo>, ensured: seq<string>, key: string)
    requires WantedKey(solana, ensured, key) || HeldKey(solana, notes, key)
    ensures KeyOf(solana, key) == key
  {
    hide KeyOf, AddressOf;
    if WantedKey(solana, ensured, key) {
      var i :| 0 <= i < |ensured| && KeyOf(solana, ensured[i]) == key;
      KeyIsItsOwn(solana, ensured[i]);
    } else {
      var i :| 0 <= i < |notes| && OfToken(solana, notes[i], key);
      KeyIsItsOwn(solana, AddressOf(solana, notes[i]));
    }
  }

  /** Groups the notes by token in order, makes sure of the wanted tokens, and sorts and pads each group. */
  method GetInputUtxoAndBalancePerToken(solana: bool, notes: seq<Utxo>, ensured: seq<string>) returns (perToken: map<string, seq<Utxo>>)
    ensures forall key :: key in perToken ==> perToken[key] == SortedRow(NotesOf(solana, notes, key), key)
    ensures forall i :: 0 <= i < |ensured| ==> KeyOf(solana, ensured[i]) in perToken
    ensures GroupedByToken(solana, notes, ensured, perToken)
  {
    hide KeyOf, AddressOf, OfToken, NotesOf, SortedRow, GroupedByToken, WantedKey, HeldKey;
    NothingGrouped(solana);
    var groups: map<string, seq<Utxo>> := map[];
    assert notes[..0] == [];
    for i := 0 to |notes|
      invariant forall key :: key in groups ==> groups[key] == NotesOf(solana, notes[..i], key)
      invariant forall key :: key !in groups ==> NotesOf(solana, notes[..i], key) == []
      invariant forall key :: key in groups <==> HeldKey(solana, notes[..i], key)
    {
      GroupsNext(solana, notes, i);
      var address := AddressOf(solana, notes[i]);
      if address != "" {
        var key := KeyOf(solana, address);
        groups := groups[key := (if key in groups then groups[key] else []) + [notes[i]]];
      }
    }
    assert notes[..|notes|] == notes;
    assert ensured[..0] == [];
    for i := 0 to |ensured|
      invariant forall key :: key in groups ==> groups[key] == NotesOf(solana, notes, key)
      invariant forall key :: key !in groups ==> NotesOf(solana, notes, key) == []
      invariant forall key :: key in groups <==> WantedKey(solana, ensured[..i], key) || HeldKey(solana, notes, key)
    {
      forall key ensures WantedKey(solana, ensured[..i + 1], key) <==> WantedKey(solana, ensured[..i], key) || KeyOf(solana, ensured[i]) == key {
        WantedNext(solana, ensured, i, key);
      }
      var key := KeyOf(solana, ensured[i]);
      if key !in groups {
        groups := groups[key := []];
      }
    }
    assert ensured[..|ensured|] == ensured;
    perToken := map[];
    var keys := groups.Keys;
    while keys != {}
      invariant keys <= groups.Keys && perToken.Keys == groups.Keys - keys
      invariant forall key :: key in perToken ==> perToken[key] == SortedRow(NotesOf(solana, notes, key), key)
      decreases keys
    {
      var key :| key in keys;
      var row := SortAndPadUtxos(groups[key], key);
      perToken := perToken[key := row];
      keys := keys - {key};
    }
    EachWanted(solana, ensured);
    GroupsHold(solana, notes, ensured, perToken);
  }

  lemma NothingGrouped(solana: bool)
    ensures forall key :: NotesOf(solana, [], key) == [] && !HeldKey(solana, [], key) && !WantedKey(solana, [], key)
  {
  }

  lemma EachWanted(solana: bool, ensured: seq<string>)
    ensures forall i :: 0 <= i < |ensured| ==> WantedKey(solana, ensured, KeyOf(solana, ensured[i]))
  {
    hide KeyOf;
  }

  /** A note joins the group of its address, if it has one. */
  lemma GroupsNext(solana: bool, notes: seq<Utxo>, i: nat)
    requires i < |notes|
    ensures var address := AddressOf(solana, notes[i]);
            forall key ::
              && NotesOf(solana, notes[..i + 1], key) ==
                 NotesOf(solana, notes[..i], key) + (if address != "" && key == KeyOf(solana, address) then [notes[i]] else [])
              && (HeldKey(solana, notes[..i + 1], key) <==> HeldKey(solana, notes[..i], key) || (address != "" && key == KeyOf(solana, address)))
  {
    hide KeyOf, AddressOf, HeldKey;
    assert notes[..i + 1][..i] == notes[..i];
    forall key
      ensures HeldKey(solana, notes[..i + 1], key) <==> HeldKey(solana, notes[..i], key) || OfToken(solana, notes[i], key)
    {
      HeldNext(solana, notes, i, key);
    }
  }

  // --- The rectangle.

  /** The row for token i before padding to a rectangle. */
  function BaseRow(solana: bool, notes: seq<Utxo>, token: string, forceEmpty: bool, onChain: bool): seq<Utxo> {
    if forceEmpty then []
    else if onChain then ZeroNotes(token, MIN_INPUT)
    else SortedRow(NotesOf(solana, notes, KeyOf(solana, token)), KeyOf(solana, token))
  }

  function OnChain(flags: seq<bool>, i: nat): bool {
    i < |flags| && flags[i]
  }

  function BaseRows(solana: bool, notes: seq<Utxo>, tokens: seq<string>, forceEmpty: bool, onChain: seq<bool>): seq<seq<Utxo>> {
    seq(|tokens|, i requires 0 <= i < |tokens| => BaseRow(solana, notes, tokens[i], forceEmpty, OnChain(onChain, i)))
  }

  /** Cut or padded to the width. */
  function FitRow(row: seq<Utxo>, token: string, width: nat): seq<Utxo> {
    if |row| > width then row[..width] else row + ZeroNotes(token, width - |row|)
  }

  /** An over-long row whose kept notes do not cover the requested spend. */
  predicate OverLimit(row: seq<Utxo>, amountChange: int, width: nat) {
    |row| > width && amountChange < 0 && Total(row[..width]) < -amountChange
  }

  predicate AllOfWidth(rows: seq<seq<Utxo>>, width: nat) {
    forall i :: 0 <= i < |rows| ==> |rows[i]| == width
  }

  /** Rows of two stay as they are. Otherwise every row is fitted to the width, unless one is over the limit. */
  predicate FitsBase(base: seq<seq<Utxo>>, tokens: seq<string>, amountChanges: seq<int>, width: nat, rows: Result<seq<seq<Utxo>>, string>)
    requires |base| == |tokens| <= |amountChanges|
  {
    && (AllOfWidth(base, MIN_INPUT) ==> rows == Ok(base))
    && (!AllOfWidth(base, MIN_INPUT) ==> (rows.Err? <==> exists i :: 0 <= i < |base| && OverLimit(base[i], amountChanges[i], width)))
    && (!AllOfWidth(base, MIN_INPUT) && rows.Ok? ==>
          |rows.value| == |tokens| && forall i :: 0 <= i < |tokens| ==> rows.value[i] == FitRow(base[i], tokens[i], width))
  }

  // --- What the rows are, said of the wallet's notes.

  /** A choice among the wallet's notes of a token. */
  ghost predicate IsPick(solana: bool, notes: seq<Utxo>, token: string, pick: seq<Utxo>) {
    multiset(pick) <= multiset(notes) && forall i :: 0 <= i < |pick| ==> Belongs(solana, pick[i], token)
  }

  /** Some of the token's notes by falling amount and zero notes, worth at least any choice of that many of its notes. */
  ghost predicate IsBestRow(solana: bool, notes: seq<Utxo>, token: string, row: seq<Utxo>) {
    && (exists n :: 0 <= n <= |row| && IsPick(solana, notes, token, row[..n]) && Descending(row[..n]) && WorthNothing(row[n..]))
    && forall pick :: IsPick(solana, notes, token, pick) && |pick| <= |row| ==> Total(pick) <= Total(row)
  }

  function CountOf(solana: bool, notes: seq<Utxo>, token: string): nat {
    if notes == [] then 0 else CountOf(solana, notes[..|notes| - 1], token) + if Belongs(solana, notes[|notes| - 1], token) then 1 else 0
  }

  /** The token's notes, padded to two or six, do not fit the width, and no choice of so many covers the spend. */
  ghost predicate LimitExceeded(solana: bool, notes: seq<Utxo>, token: string, amountChange: int, width: nat) {
    var n := CountOf(solana, notes, token);
    && amountChange < 0 && width < (if n <= 2 then 2 else if n < 6 then 6 else n)
    && forall pick :: IsPick(solana, notes, token, pick) && |pick| <= width ==> Total(pick) < -amountChange
  }

  predicate Emptied(forceEmpty: bool, onChain: seq<bool>, i: nat) {
    forceEmpty || (i < |onChain| && onChain[i])
  }

  /**
   Forced and on-chain rows hold zero notes; every other row is the best of its token's notes. There is an error exactly when some token
   has more than two notes and some row is over the limit: one of notes whose token's limit is exceeded, or, if only one slot is
   allowed, an on-chain one that is to spend.
   */
  ghost predicate RowsAreBest(solana: bool, notes: seq<Utxo>, tokens: seq<string>, amountChanges: seq<int>, maxInput: nat,
                              forceEmpty: bool, onChain: seq<bool>, rows: Result<seq<seq<Utxo>>, string>)
    requires |amountChanges| >= |tokens|
  {
    && (rows.Ok? ==> |rows.value| == |tokens| && forall i :: 0 <= i < |tokens| ==>
          if Emptied(forceEmpty, onChain, i) then WorthNothing(rows.value[i]) else IsBestRow(solana, notes, tokens[i], rows.value[i]))
    && (rows.Err? <==>
          && (exists i :: 0 <= i < |tokens| && !Emptied(forceEmpty, onChain, i) && CountOf(solana, notes, tokens[i]) > 2)
          && exists i :: 0 <= i < |tokens| &&
               if Emptied(forceEmpty, onChain, i) then amountChanges[i] < 0 && maxInput == 1
               else LimitExceeded(solana, notes, tokens[i], amountChanges[i], if maxInput == 0 then 6 else maxInput))
  }

  method AddPaddingToUtxos(solana: bool, notes: seq<Utxo>, tokens: seq<string>, amountChanges: seq<int>, maxInput: nat,
                           forceEmpty: bool, onChain: seq<bool>)
    returns (rows: Result<seq<seq<Utxo>>, string>)
    requires |amountChanges| >= |tokens|
    ensures NonNegative(notes) ==> RowsAreBest(solana, notes, tokens, amountChanges, maxInput, forceEmpty, onChain, rows)
    ensures rows.Ok? ==> |rows.value| == |tokens|
    ensures rows.Ok? ==> AllOfWidth(rows.value, MIN_INPUT) || AllOfWidth(rows.value, if maxInput == 0 then FULL_INPUT else maxInput)
    ensures FitsBase(BaseRows(solana, notes, tokens, forceEmpty, onChain), tokens, amountChanges, if maxInput == 0 then FULL_INPUT else maxInput, rows)
  {
    hide SortedRow, NotesOf, KeyOf, Total, GroupedByToken, RowsAreBest, FitRow, OverLimit;
    if NonNegative(notes) { FittedRowsAreBest(solana, notes, tokens, amountChanges, maxInput, forceEmpty, onChain); }
    var width := if maxInput == 0 then FULL_INPUT else maxInput;
    if tokens == [] {
      assert BaseRows(solana, notes, tokens, forceEmpty, onChain) == [];
      return Ok([]);
    }
    var perToken := GetInputUtxoAndBalancePerToken(solana, notes, tokens);
    ghost var base := BaseRows(solana, notes, tokens, forceEmpty, onChain);
    var toBePadded: seq<seq<Utxo>> := [];
    var maxUtxoNum := 0;
    for i := 0 to |tokens|
      invariant toBePadded == base[..i]
      invariant forall k :: 0 <= k < i ==> |base[k]| <= maxUtxoNum
      invariant maxUtxoNum > 0 ==> exists k :: 0 <= k < i && |base[k]| == maxUtxoNum
    {
      var row := [];
      if forceEmpty {
      } else if OnChain(onChain, i) {
        row := ZeroNotes(tokens[i], MIN_INPUT);
      } else {
        row := perToken[KeyOf(solana, tokens[i])];
      }
      if |row| > maxUtxoNum {
        maxUtxoNum := |row|;
      }
      toBePadded := toBePadded + [row];
      assert row == base[i];
    }
    assert toBePadded == base;
    BaseRowWidths(solana, notes, tokens, forceEmpty, onChain);
    if maxUtxoNum == MIN_INPUT {
      return Ok(toBePadded);
    }
    assert |base[0]| <= maxUtxoNum;
    assert !AllOfWidth(base, MIN_INPUT);
    rows := FitRows(toBePadded, tokens, amountChanges, width);
  }

  /** Pads short rows and cuts long ones; a long row whose kept notes do not cover the spend is an error. */
  method FitRows(toBePadded: seq<seq<Utxo>>, tokens: seq<string>, amountChanges: seq<int>, width: nat) returns (rows: Result<seq<seq<Utxo>>, string>)
    requires |toBePadded| == |tokens| <= |amountChanges|
    ensures rows.Err? <==> exists i :: 0 <= i < |toBePadded| && OverLimit(toBePadded[i], amountChanges[i], width)
    ensures rows.Ok? ==> AllOfWidth(rows.value, width)
    ensures rows.Ok? ==> |rows.value| == |tokens| && forall i :: 0 <= i < |tokens| ==> rows.value[i] == FitRow(toBePadded[i], tokens[i], width)
  {
    hide Total;
    var padded: seq<seq<Utxo>> := [];
    for i := 0 to |toBePadded|
      invariant |padded| == i && AllOfWidth(padded, width)
      invariant forall k :: 0 <= k < i ==> padded[k] == FitRow(toBePadded[k], tokens[k], width) && !OverLimit(toBePadded[k], amountChanges[k], width)
    {
      var utxos := toBePadded[i];
      if |utxos| > width {
        var kept := utxos[..width];
        var keptAmount := SumAmounts(kept);
        if amountChanges[i] < 0 && keptAmount < -amountChanges[i] {
          assert OverLimit(toBePadded[i], amountChanges[i], width);
          return Err("utxo limitations");
        }
        padded := padded + [kept];
      } else {
        padded := padded + [utxos + ZeroNotes(tokens[i], width - |utxos|)];
      }
    }
    rows := Ok(padded);
  }

  method SumAmounts(notes: seq<Utxo>) returns (total: int)
    ensures total == Total(notes)
  {
    total := 0;
    for i := 0 to |notes|
      invariant total == Total(notes[..i])
    {
      assert notes[..i + 1][..i] == notes[..i];
      total := total + notes[i].amount;
    }
    assert notes[..|notes|] == notes;
  }

  /** Before padding every row is empty, or every row has at least two notes. */
  lemma BaseRowWidths(solana: bool, notes: seq<Utxo>, tokens: seq<string>, forceEmpty: bool, onChain: seq<bool>)
    ensures var base := BaseRows(solana, notes, tokens, forceEmpty, onChain);
            forall i :: 0 <= i < |base| ==> if forceEmpty then |base[i]| == 0 else |base[i]| >= MIN_INPUT
  {
    hide SortedRow, NotesOf, KeyOf;
    forall i | 0 <= i < |tokens|
      ensures var row := BaseRow(solana, notes, tokens[i], forceEmpty, OnChain(onChain, i));
              if forceEmpty then |row| == 0 else |row| >= MIN_INPUT
    {
      SortedRowLength(NotesOf(solana, notes, KeyOf(solana, tokens[i])), KeyOf(solana, tokens[i]));
    }
  }

  // --- What the rows mean for the wallet's notes.

  /** No choice of at most m of the notes is worth the amount. */
  ghost predicate CannotCover(notes: seq<Utxo>, amount: int, m: nat) {
    forall pick :: multiset(pick) <= multiset(notes) && |pick| <= m ==> Total(pick) < amount
  }

  /** Padding to the width keeps a row's total; cutting to it keeps the most valuable choice of that many notes. */
  lemma FitRowIsBest(notes: seq<Utxo>, key: string, token: string, width: nat)
    requires NonNegative(notes)
    ensures var row := SortedRow(notes, key);
            var fit := FitRow(row, token, width);
            && |fit| == width
            && (|row| <= width ==> Total(fit) == Total(notes))
            && (forall pick :: multiset(pick) <= multiset(notes) && |pick| <= width ==> Total(pick) <= Total(fit))
            && (|row| > width ==> exists pick :: multiset(pick) <= multiset(notes) && |pick| <= width && Total(pick) == Total(fit))
  {
    hide Total, SortedRow;
    var row := SortedRow(notes, key);
    SortedRowTotal(notes, key);
    if |row| <= width {
      PaddedIsBest(notes, row, token, width);
    } else {
      var pick := KeptNotes(notes, key, width);
      CutIsBest(notes, row, width);
      assert multiset(pick) <= multiset(notes) && |pick| <= width && Total(pick) == Total(FitRow(row, token, width));
    }
  }

  lemma PaddedIsBest(notes: seq<Utxo>, row: seq<Utxo>, token: string, width: nat)
    requires |row| <= width && Descending(row) && NonNegative(row)
    requires multiset(notes) <= multiset(row) && Total(row) == Total(notes)
    ensures Total(FitRow(row, token, width)) == Total(notes)
    ensures forall pick :: multiset(pick) <= multiset(notes) && |pick| <= width ==> Total(pick) <= Total(notes)
  {
    hide Total, Descending, NonNegative, ZeroNotes;
    TotalConcat(row, ZeroNotes(token, width - |row|));
    ZeroNotesTotal(token, width - |row|);
    assert row[..|row|] == row;
    forall pick | multiset(pick) <= multiset(notes) && |pick| <= width ensures Total(pick) <= Total(notes) {
      SubbagLength(pick, row);
      TopIsBest(row, pick, |row|);
    }
  }

  lemma CutIsBest(notes: seq<Utxo>, row: seq<Utxo>, width: nat)
    requires |row| > width && Descending(row) && NonNegative(row) && multiset(notes) <= multiset(row)
    ensures forall pick :: multiset(pick) <= multiset(notes) && |pick| <= width ==> Total(pick) <= Total(row[..width])
  {
    hide Total;
    forall pick | multiset(pick) <= multiset(notes) && |pick| <= width ensures Total(pick) <= Total(row[..width]) {
      TopIsBest(row, pick, width);
    }
  }

  /** The wallet's own notes among those a long row keeps: all the value the kept row has. */
  lemma KeptNotes(notes: seq<Utxo>, key: string, width: nat) returns (pick: seq<Utxo>)
    requires |SortedRow(notes, key)| > width
    ensures multiset(pick) <= multiset(notes) && |pick| <= width && Total(pick) == Total(SortedRow(notes, key)[..width])
  {
    hide Total, SortDescending;
    var sorted, row := SortDescending(notes), SortedRow(notes, key);
    SortDescendingSorts(notes);
    SortedRowLength(notes, key);
    if width <= |sorted| {
      pick := sorted[..width];
      assert row[..width] == pick;
      assert sorted == pick + sorted[width..];
    } else {
      pick := sorted;
      assert row[..width] == sorted + ZeroNotes(key, width - |sorted|);
      TotalConcat(sorted, ZeroNotes(key, width - |sorted|));
      ZeroNotesTotal(key, width - |sorted|);
    }
  }

  /** The limit error of a row means exactly that it is over-long and no such choice of notes covers the spend. */
  lemma OverLimitIffCannotCover(notes: seq<Utxo>, key: string, amountChange: int, width: nat)
    requires NonNegative(notes)
    ensures var row := SortedRow(notes, key);
            OverLimit(row, amountChange, width) <==> |row| > width && amountChange < 0 && CannotCover(notes, -amountChange, width)
  {
    hide Total, SortedRow;
    FitRowIsBest(notes, key, key, width);
  }

  // --- From rows to the wallet's notes.

  lemma {:induction false} CountIs(solana: bool, notes: seq<Utxo>, token: string)
    ensures |NotesOf(solana, notes, KeyOf(solana, token))| == CountOf(solana, notes, token)
    decreases |notes|
  {
    hide KeyOf, OfToken, Belongs;
    if notes != [] {
      CountIs(solana, notes[..|notes| - 1], token);
      BelongsIff(solana, notes[|notes| - 1], token);
    }
  }

  lemma PickIff(solana: bool, notes: seq<Utxo>, token: string, pick: seq<Utxo>)
    ensures IsPick(solana, notes, token, pick) <==> multiset(pick) <= multiset(NotesOf(solana, notes, KeyOf(solana, token)))
  {
    hide KeyOf, NotesOf, Belongs;
    var own := NotesOf(solana, notes, KeyOf(solana, token));
    forall x ensures multiset(own)[x] == if Belongs(solana, x, token) then multiset(notes)[x] else 0 { CountOfToken(solana, notes, token, x); }
    if multiset(pick) <= multiset(own) {
      forall x ensures multiset(pick)[x] <= multiset(notes)[x] {}
      forall i | 0 <= i < |pick| ensures Belongs(solana, pick[i], token) {
        assert pick[i] in multiset(pick);
        assert multiset(pick)[pick[i]] <= multiset(own)[pick[i]];
      }
    }
    if IsPick(solana, notes, token, pick) {
      forall x ensures multiset(pick)[x] <= multiset(own)[x] {
        if x in multiset(pick) {
          var i :| 0 <= i < |pick| && pick[i] == x;
          assert Belongs(solana, pick[i], token);
        }
      }
    }
  }

  lemma OwnAreNonNegative(solana: bool, notes: seq<Utxo>, key: string)
    requires NonNegative(notes)
    ensures NonNegative(NotesOf(solana, notes, key))
    decreases |notes|
  {
    if notes != [] { OwnAreNonNegative(solana, notes[..|notes| - 1], key); }
  }

  /** The sorted notes, cut or padded to any width, are a best row. */
  lemma FitIsBestRow(solana: bool, notes: seq<Utxo>, token: string, padToken: string, width: nat)
    requires NonNegative(notes)
    ensures var row := SortedRow(NotesOf(solana, notes, KeyOf(solana, token)), KeyOf(solana, token));
            IsBestRow(solana, notes, token, FitRow(row, padToken, width)) && IsBestRow(solana, notes, token, row)
  {
    hide KeyOf, NotesOf, SortedRow, IsPick, Total, WorthNothing, Descending;
    var key := KeyOf(solana, token);
    var own, row := NotesOf(solana, notes, key), SortedRow(NotesOf(solana, notes, key), key);
    OwnAreNonNegative(solana, notes, key);
    forall w: nat ensures BestAmong(own, FitRow(row, padToken, w)) { FitRowIsBest(own, key, padToken, w); }
    assert FitRow(row, padToken, |row|) == row;
    forall pick, w: nat | IsPick(solana, notes, token, pick) && |pick| <= w ensures Total(pick) <= Total(FitRow(row, padToken, w)) {
      PickIff(solana, notes, token, pick);
      assert BestAmong(own, FitRow(row, padToken, w));
      FitWidth(row, padToken, w);
    }
    FitWidth(row, padToken, width);
    FitHead(solana, notes, token, padToken, width);
    FitHead(solana, notes, token, padToken, |row|);
  }

  ghost predicate BestAmong(own: seq<Utxo>, row: seq<Utxo>) {
    forall pick :: multiset(pick) <= multiset(own) && |pick| <= |row| ==> Total(pick) <= Total(row)
  }

  lemma FitWidth(row: seq<Utxo>, token: string, width: nat)
    ensures |FitRow(row, token, width)| == width
  {
  }

  /** A fitted row starts with notes of the token. */
  lemma FitHead(solana: bool, notes: seq<Utxo>, token: string, padToken: string, width: nat)
    ensures var row := FitRow(SortedRow(NotesOf(solana, notes, KeyOf(solana, token)), KeyOf(solana, token)), padToken, width);
            exists n :: 0 <= n <= |row| && IsPick(solana, notes, token, row[..n]) && Descending(row[..n]) && WorthNothing(row[n..])
  {
    hide KeyOf, NotesOf, SortDescending, IsPick;
    var key := KeyOf(solana, token);
    var own, row := NotesOf(solana, notes, key), FitRow(SortedRow(NotesOf(solana, notes, key), key), padToken, width);
    var sorted := SortDescending(own);
    SortDescendingSorts(own);
    var n := if |sorted| <= width then |sorted| else width;
    assert row[..n] == sorted[..n];
    assert sorted == sorted[..n] + sorted[n..];
    PickIff(solana, notes, token, row[..n]);
    assert WorthNothing(row[n..]);
  }

  lemma OverLimitIff(solana: bool, notes: seq<Utxo>, token: string, amountChange: int, width: nat)
    requires NonNegative(notes)
    ensures var row := SortedRow(NotesOf(solana, notes, KeyOf(solana, token)), KeyOf(solana, token));
            OverLimit(row, amountChange, width) <==> LimitExceeded(solana, notes, token, amountChange, width)
  {
    hide KeyOf, NotesOf, SortedRow, IsPick, Total, OverLimit, CountOf;
    var key := KeyOf(solana, token);
    var own := NotesOf(solana, notes, key);
    OwnAreNonNegative(solana, notes, key);
    OverLimitIffCannotCover(own, key, amountChange, width);
    SortedRowLength(own, key);
    CountIs(solana, notes, token);
    forall pick ensures IsPick(solana, notes, token, pick) <==> multiset(pick) <= multiset(own) { PickIff(solana, notes, token, pick); }
  }

  lemma ZerosAreWorthNothing(token: string, n: nat, more: nat)
    ensures WorthNothing(ZeroNotes(token, n)) && WorthNothing(ZeroNotes(token, n) + ZeroNotes(token, more)) && WorthNothing(ZeroNotes(token, n)[..])
    ensures Total(ZeroNotes(token, n)) == 0
  {
    ZeroNotesTotal(token, n);
  }

  lemma EmptiedRow(solana: bool, notes: seq<Utxo>, token: string, forceEmpty: bool, onChain: bool, width: nat)
    requires forceEmpty || onChain
    ensures var row := BaseRow(solana, notes, token, forceEmpty, onChain);
            WorthNothing(row) && WorthNothing(FitRow(row, token, width))
  {
    ZerosAreWorthNothing(token, MIN_INPUT, 0);
  }

  /** What fits the base rows is best for the wallet's notes. */
  lemma FittedRowsAreBest(solana: bool, notes: seq<Utxo>, tokens: seq<string>, amountChanges: seq<int>, maxInput: nat, forceEmpty: bool, onChain: seq<bool>)
    requires |amountChanges| >= |tokens| && NonNegative(notes)
    ensures var width := if maxInput == 0 then FULL_INPUT else maxInput;
            forall rows :: FitsBase(BaseRows(solana, notes, tokens, forceEmpty, onChain), tokens, amountChanges, width, rows) ==>
              RowsAreBest(solana, notes, tokens, amountChanges, maxInput, forceEmpty, onChain, rows)
  {
    hide BaseRow, IsBestRow, LimitExceeded, WorthNothing, FitRow, OverLimit;
    var base, width := BaseRows(solana, notes, tokens, forceEmpty, onChain), if maxInput == 0 then FULL_INPUT else maxInput;
    forall i | 0 <= i < |tokens|
      ensures if Emptied(forceEmpty, onChain, i) then WorthNothing(base[i]) && WorthNothing(FitRow(base[i], tokens[i], width))
              else IsBestRow(solana, notes, tokens[i], base[i]) && IsBestRow(solana, notes, tokens[i], FitRow(base[i], tokens[i], width))
      ensures OverLimit(base[i], amountChanges[i], width) <==>
                if Emptied(forceEmpty, onChain, i) then !forceEmpty && amountChanges[i] < 0 && maxInput == 1
                else LimitExceeded(solana, notes, tokens[i], amountChanges[i], width)
      ensures |base[i]| == MIN_INPUT <==>
                !forceEmpty && (Emptied(forceEmpty, onChain, i) || CountOf(solana, notes, tokens[i]) <= 2)
    {
      BaseRowIs(solana, notes, tokens[i], forceEmpty, OnChain(onChain, i), amountChanges[i], width);
    }
    forall rows | FitsBase(base, tokens, amountChanges, width, rows)
      ensures RowsAreBest(solana, notes, tokens, amountChanges, maxInput, forceEmpty, onChain, rows)
    {
      if AllOfWidth(base, MIN_INPUT) { assert rows == Ok(base); }
    }
  }

  lemma BaseRowIs(solana: bool, notes: seq<Utxo>, token: string, forceEmpty: bool, onChain: bool, amountChange: int, width: nat)
    requires NonNegative(notes) && width > 0
    ensures var row := BaseRow(solana, notes, token, forceEmpty, onChain);
            && (if forceEmpty || onChain then WorthNothing(row) && WorthNothing(FitRow(row, token, width))
                else IsBestRow(solana, notes, token, row) && IsBestRow(solana, notes, token, FitRow(row, token, width)))
            && (OverLimit(row, amountChange, width) <==>
                  if forceEmpty || onChain then !forceEmpty && amountChange < 0 && width == 1
                  else LimitExceeded(solana, notes, token, amountChange, width))
            && (|row| == MIN_INPUT <==> !forceEmpty && (onChain || CountOf(solana, notes, token) <= 2))
  {
    hide IsBestRow, LimitExceeded, SortedRow, NotesOf, KeyOf, FitRow, ZeroNotes, CountOf, Total;
    if forceEmpty || onChain {
      EmptiedRow(solana, notes, token, forceEmpty, onChain, width);
      ZeroLength(token, width);
    } else {
      SortedRowLength(NotesOf(solana, notes, KeyOf(solana, token)), KeyOf(solana, token));
      CountIs(solana, notes, token);
      FitIsBestRow(solana, notes, token, token, width);
      OverLimitIff(solana, notes, token, amountChange, width);
    }
  }

  lemma ZeroLength(token: string, width: nat)
    ensures |ZeroNotes(token, MIN_INPUT)| == MIN_INPUT
    ensures width <= MIN_INPUT ==> Total(ZeroNotes(token, MIN_INPUT)[..width]) == 0
  {
    if width <= MIN_INPUT {
      assert ZeroNotes(token, MIN_INPUT)[..width] == ZeroNotes(token, width);
      ZeroNotesTotal(token, width);
    }
  }
}
