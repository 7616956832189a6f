/** Notes with an amount and a token, their totals, and addresses compared without regard to case. */
module Utxos {
  datatype Owner = Self | Recipient(stealthAddress: string, h0: (int, int), encryptionKey: string)

  datatype Utxo = Utxo(amount: int, token: string, mint: string, owner: Owner)

  function Total(notes: seq<Utxo>): int {
    if notes == [] then 0 else Total(notes[..|notes| - 1]) + notes[|notes| - 1].amount
  }

  lemma {:induction false} TotalConcat(a: seq<Utxo>, b: seq<Utxo>)
    ensures Total(a + b) == Total(a) + Total(b)
    decreases |b|
  {
    if b == [] {
      assert a + b == a;
    } else {
      TotalConcat(a, b[..|b| - 1]);
      assert (a + b)[..|a + b| - 1] == a + b[..|b| - 1];
    }
  }

  /** Taking one note out lowers the total by its amount. */
  lemma TotalWithout(notes: seq<Utxo>, i: nat)
    requires i < |notes|
    ensures Total(notes) == Total(notes[..i] + notes[i + 1..]) + notes[i].amount
  {
    assert notes == notes[..i] + ([notes[i]] + notes[i + 1..]);
    TotalConcat(notes[..i], [notes[i]] + notes[i + 1..]);
    TotalConcat([notes[i]], notes[i + 1..]);
    TotalConcat(notes[..i], notes[i + 1..]);
    assert Total([notes[i]]) == notes[i].amount by { assert [notes[i]][..0] == []; }
  }

  function Without(notes: seq<Utxo>, i: nat): seq<Utxo>
    requires i < |notes|
  {
    notes[..i] + notes[i + 1..]
  }

  lemma WithoutBag(notes: seq<Utxo>, i: nat)
    requires i < |notes|
    ensures multiset(notes) == multiset(Without(notes, i)) + multiset{notes[i]}
    ensures |Without(notes, i)| == |notes| - 1
  {
    assert notes == notes[..i] + [notes[i]] + notes[i + 1..];
  }

  lemma LastBag(notes: seq<Utxo>)
    requires notes != []
    ensures multiset(notes) == multiset(notes[..|notes| - 1]) + multiset{notes[|notes| - 1]}
  {
    assert notes == notes[..|notes| - 1] + [notes[|notes| - 1]];
  }

  lemma BagCancel(a: multiset<Utxo>, b: multiset<Utxo>, x: Utxo)
    requires a + multiset{x} <= b + multiset{x}
    ensures a <= b
  {
    forall y ensures a[y] <= b[y] { assert (a + multiset{x})[y] <= (b + multiset{x})[y]; }
  }

  lemma SubbagLength(a: seq<Utxo>, b: seq<Utxo>)
    requires multiset(a) <= multiset(b)
    ensures |a| <= |b|
  {
    var extra := multiset(b) - multiset(a);
    assert multiset(b) == multiset(a) + extra;
    assert |multiset(b)| == |multiset(a)| + |extra|;
  }

  /** The total depends only on which notes there are, not on their order. */
  lemma {:induction false} TotalOfPermutation(a: seq<Utxo>, b: seq<Utxo>)
    requires multiset(a) == multiset(b)
    ensures Total(a) == Total(b)
    decreases |a|
  {
    if a == [] {
      SubbagLength(b, a);
    } else {
      var x, front := a[|a| - 1], a[..|a| - 1];
      LastBag(a);
      assert x in multiset(b);
      var i :| 0 <= i < |b| && b[i] == x;
      WithoutBag(b, i);
      BagCancel(multiset(front), multiset(Without(b, i)), x);
      BagCancel(multiset(Without(b, i)), multiset(front), x);
      TotalOfPermutation(front, Without(b, i));
      TotalWithout(b, i);
    }
  }

  predicate NonNegative(notes: seq<Utxo>) {
    forall i :: 0 <= i < |notes| ==> notes[i].amount >= 0
  }

  lemma {:induction false} TotalNonNegative(notes: seq<Utxo>)
    requires NonNegative(notes)
    ensures Total(notes) >= 0
    decreases |notes|
  {
    if notes != [] { TotalNonNegative(notes[..|notes| - 1]); }
  }

  function LowerChar(c: char): char {
    if 'A' <= c <= 'Z' then (c as int - 'A' as int + 'a' as int) as char else c
  }

  function Lower(s: string): string {
    seq(|s|, i requires 0 <= i < |s| => LowerChar(s[i]))
  }

  predicate EqualFold(a: string, b: string) {
    Lower(a) == Lower(b)
  }

  /** The same character, or the two cases of one ASCII letter, which lie 32 apart. */
  predicate SameLetter(x: char, y: char) {
    x == y || ('A' <= x <= 'Z' && y as int == x as int + 32) || ('A' <= y <= 'Z' && x as int == y as int + 32)
  }

  predicate SameSpelling(a: string, b: string) {
    |a| == |b| && forall i :: 0 <= i < |a| ==> SameLetter(a[i], b[i])
  }

  /** Texts have one lower-case form exactly when they agree letter by letter up to case. */
  lemma EqualFoldIff(a: string, b: string)
    ensures EqualFold(a, b) <==> SameSpelling(a, b)
  {
    if EqualFold(a, b) {
      assert |Lower(a)| == |Lower(b)|;
      forall i | 0 <= i < |a| ensures SameLetter(a[i], b[i]) { assert Lower(a)[i] == Lower(b)[i]; }
    }
    if SameSpelling(a, b) {
      forall i | 0 <= i < |a| ensures Lower(a)[i] == Lower(b)[i] { assert SameLetter(a[i], b[i]); }
      assert Lower(a) == Lower(b);
    }
  }

  lemma LowerTwice(a: string)
    ensures Lower(Lower(a)) == Lower(a)
  {
    forall i | 0 <= i < |a| ensures Lower(Lower(a))[i] == Lower(a)[i] {
      assert Lower(Lower(a))[i] == LowerChar(Lower(a)[i]);
    }
  }
}
