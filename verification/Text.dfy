/** Searching and splitting text. */
module Text {
  predicate At(s: string, sep: string, i: nat) {
    i + |sep| <= |s| && s[i..i + |sep|] == sep
  }

  /** The first place the separator occurs, or the length of the text. */
  function Find(s: string, sep: string): (i: nat)
    requires |sep| > 0
    ensures i <= |s|
    ensures i < |s| ==> At(s, sep, i)
    ensures forall k :: 0 <= k < i ==> !At(s, sep, k)
    ensures i == |s| ==> forall k :: 0 <= k <= |s| ==> !At(s, sep, k)
  {
    FindFrom(s, sep, 0)
  }

  function FindFrom(s: string, sep: string, from: nat): (i: nat)
    requires |sep| > 0 && from <= |s|
    requires forall k :: 0 <= k < from ==> !At(s, sep, k)
    ensures from <= i <= |s|
    ensures i < |s| ==> At(s, sep, i)
    ensures forall k :: 0 <= k < i ==> !At(s, sep, k)
    ensures i == |s| ==> forall k :: 0 <= k <= |s| ==> !At(s, sep, k)
    decreases |s| - from
  {
    if from == |s| || At(s, sep, from) then from else FindFrom(s, sep, from + 1)
  }

  /** The pieces between successive occurrences; a text without any is one piece. */
  function Split(s: string, sep: string): (parts: seq<string>)
    requires |sep| > 0
    ensures |parts| > 0
    decreases |s|
  {
    var i := Find(s, sep);
    if i == |s| then [s] else [s[..i]] + Split(s[i + |sep|..], sep)
  }

  /** A text without the separator before its first occurrence splits off as the first piece. */
  lemma SplitFirst(first: string, rest: string, c: char)
    requires c !in first
    ensures Split(first + [c] + rest, [c]) == [first] + Split(rest, [c])
  {
    hide FindFrom;
    var s := first + [c] + rest;
    forall k | 0 <= k < |first| ensures !At(s, [c], k) {
      assert s[k..k + 1][0] == first[k];
    }
    assert s[|first|..|first| + 1] == [c];
    assert At(s, [c], |first|);
    assert s[..|first|] == first && s[|first| + 1..] == rest;
  }

  lemma SplitWhole(s: string, c: char)
    requires c !in s
    ensures Split(s, [c]) == [s]
  {
    hide FindFrom;
    forall k | 0 <= k < |s| ensures !At(s, [c], k) {
      assert s[k..k + 1][0] == s[k];
    }
  }

  /** The first of several pieces is the text before the first separator; the others are the pieces of the text after it. */
  lemma SplitHead(s: string, c: char) returns (rest: string)
    ensures c !in Split(s, [c])[0]
    ensures |Split(s, [c])| > 1 ==> s == Split(s, [c])[0] + [c] + rest && Split(s, [c])[1..] == Split(rest, [c])
    ensures |Split(s, [c])| == 1 ==> s == Split(s, [c])[0]
  {
    hide FindFrom;
    var i := Find(s, [c]);
    forall k | 0 <= k < i ensures s[k] != c {
      assert s[k..k + 1] == [s[k]];
      assert !At(s, [c], k);
    }
    rest := [];
    if i < |s| {
      rest := s[i + 1..];
      assert s[i..i + 1] == [s[i]];
      assert s == s[..i] + [c] + rest;
    }
  }

  function Join(parts: seq<string>, c: char): string
    requires parts != []
  {
    if |parts| == 1 then parts[0] else parts[0] + [c] + Join(parts[1..], c)
  }

  /** Pieces without the separator that join to the text. */
  predicate PiecesOf(parts: seq<string>, s: string, c: char) {
    parts != [] && (forall i :: 0 <= i < |parts| ==> c !in parts[i]) && Join(parts, c) == s
  }

  /** Splitting at a character gives the one list of pieces without it that joins to the text. */
  lemma {:induction false} SplitIsPieces(s: string, parts: seq<string>, c: char)
    ensures Split(s, [c]) == parts <==> PiecesOf(parts, s, c)
    decreases |s|
  {
    hide Split;
    var all := Split(s, [c]);
    var rest := SplitHead(s, c);
    if |all| == 1 {
      assert PiecesOf(all, s, c);
    } else {
      SplitIsPieces(rest, all[1..], c);
      assert forall i :: 0 < i < |all| ==> all[i] == all[1..][i - 1];
      assert PiecesOf(all, s, c);
    }
    if PiecesOf(parts, s, c) {
      if |parts| == 1 {
        SplitWhole(s, c);
      } else {
        var tail := Join(parts[1..], c);
        SplitFirst(parts[0], tail, c);
        assert PiecesOf(parts[1..], tail, c);
        assert |tail| < |s|;
        SplitIsPieces(tail, parts[1..], c);
      }
    }
  }
}
