/**
 The text inside an encrypted note: its fields as 0x-prefixed hexadecimal, one after the other without any other
 separator, and the reader that cuts them apart again.
 */
module HexFields {
  import opened Wrappers
  import opened RawBytes
  import opened Numbers
  import opened SealedKeys
  import Text

  function Ensure0x(value: string): string {
    if |value| >= 2 && value[..2] == "0x" then value else "0x" + value
  }

  predicate Free(body: string) {
    forall i :: 0 <= i <= |body| ==> !Text.At(body, "0x", i)
  }

  /** Prefixed bodies, one after the other. */
  function Join(bodies: seq<string>): string {
    if bodies == [] then "" else "0x" + (bodies[0] + Join(bodies[1..]))
  }

  function NonEmpty(parts: seq<string>): seq<string> {
    if parts == [] then []
    else
      var last := parts[|parts| - 1];
      NonEmpty(parts[..|parts| - 1]) + if last == "" then [] else [last]
  }

  method SplitHexParts(s: string) returns (out: seq<string>)
    ensures out == NonEmpty(Text.Split(s, "0x"))
  {
    var raw := Text.Split(s, "0x");
    out := [];
    for i := 0 to |raw|
      invariant out == NonEmpty(raw[..i])
    {
      assert raw[..i + 1][..i] == raw[..i];
      if raw[i] != "" {
        out := out + [raw[i]];
      }
    }
    assert raw[..|raw|] == raw;
  }

  // --- Cutting joined fields.

  /** No separator straddles the end of a body: the next one starts with a zero, not an x. */
  lemma FindAfter(body: string, rest: string)
    requires Free(body)
    ensures Text.Find(body + ("0x" + rest), "0x") == |body|
  {
    hide Text.FindFrom;
    var s := body + ("0x" + rest);
    var i := Text.Find(s, "0x");
    assert Text.At(s, "0x", |body|) by { assert s[|body|..|body| + 2] == "0x"; }
    if i < |body| { AtWithin(body, rest, i); }
  }

  lemma AtWithin(body: string, rest: string, i: nat)
    requires i < |body| && Text.At(body + ("0x" + rest), "0x", i)
    ensures Text.At(body, "0x", i)
  {
    var s := body + ("0x" + rest);
    assert s[i..i + 2][1] == s[i + 1] && s[|body|] == '0';
    assert body[i..i + 2] == s[i..i + 2];
  }

  lemma AtPrefix(s: string, n: nat, i: nat)
    requires n <= |s| && Text.At(s[..n], "0x", i)
    ensures Text.At(s, "0x", i)
  {
    assert s[i..i + 2] == s[..n][i..i + 2];
  }

  lemma FindNone(body: string)
    requires Free(body)
    ensures Text.Find(body, "0x") == |body|
  {
    hide Text.FindFrom;
    var i := Text.Find(body, "0x");
    assert !Text.At(body, "0x", i);
  }

  ghost predicate AllFree(bodies: seq<string>) {
    forall i :: 0 <= i < |bodies| ==> Free(bodies[i])
  }

  lemma {:induction false} SplitAfter(body: string, rest: seq<string>)
    requires Free(body) && AllFree(rest)
    ensures Text.Split(body + Join(rest), "0x") == [body] + rest
    decreases |rest|
  {
    hide Text.Find, Text.At, Free;
    if rest == [] {
      assert body + Join(rest) == body;
      FindNone(body);
    } else {
      var tail := rest[0] + Join(rest[1..]);
      var s := body + ("0x" + tail);
      FindAfter(body, tail);
      assert s[..|body|] == body && s[|body| + 2..] == tail;
      SplitAfter(rest[0], rest[1..]);
      assert rest == [rest[0]] + rest[1..];
    }
  }

  lemma {:induction false} AllKept(parts: seq<string>)
    requires forall i :: 0 <= i < |parts| ==> parts[i] != ""
    ensures NonEmpty(parts) == parts
    decreases |parts|
  {
    if parts != [] {
      var n := |parts| - 1;
      assert forall i :: 0 <= i < n ==> parts[..n][i] != "";
      AllKept(parts[..n]);
      assert parts == parts[..n] + [parts[n]];
    }
  }

  lemma {:induction false} FirstDropped(parts: seq<string>)
    ensures NonEmpty([""] + parts) == NonEmpty(parts)
    decreases |parts|
  {
    if parts != [] {
      var n := |parts| - 1;
      FirstDropped(parts[..n]);
      assert ([""] + parts)[..n + 1] == [""] + parts[..n];
    } else {
      assert [""] + parts == [""] && [""][..0] == [];
      assert NonEmpty([]) == [];
    }
  }

  /** No piece contains the separator. */
  lemma {:induction false} PiecesAreFree(s: string)
    ensures AllFree(Text.Split(s, "0x"))
    decreases |s|
  {
    hide Text.FindFrom;
    var i := Text.Find(s, "0x");
    if i < |s| {
      PiecesAreFree(s[i + 2..]);
      forall k | 0 <= k <= |s[..i]| ensures !Text.At(s[..i], "0x", k) {
        if Text.At(s[..i], "0x", k) { AtPrefix(s, i, k); }
      }
    }
  }

  lemma {:induction false} NonEmptyIsFree(parts: seq<string>)
    requires AllFree(parts)
    ensures AllFree(NonEmpty(parts))
    decreases |parts|
  {
    hide Free;
    if parts != [] { NonEmptyIsFree(parts[..|parts| - 1]); }
  }

  /** Joined fields are cut apart again exactly when none of them contains the separator. */
  lemma FieldsRecoveredIff(bodies: seq<string>)
    requires forall i :: 0 <= i < |bodies| ==> bodies[i] != ""
    ensures NonEmpty(Text.Split(Join(bodies), "0x")) == bodies <==> AllFree(bodies)
  {
    hide Text.Split, Free;
    if AllFree(bodies) {
      EmptyIsFree();
      SplitAfter("", bodies);
      assert "" + Join(bodies) == Join(bodies);
      FirstDropped(bodies);
      AllKept(bodies);
    }
    PiecesAreFree(Join(bodies));
    NonEmptyIsFree(Text.Split(Join(bodies), "0x"));
  }

  lemma EmptyIsFree()
    ensures Free("")
  {
  }

  // --- Bytes as hexadecimal text.

  function HexText(bytes: Bytes): string {
    if bytes == [] then "" else HexText(bytes[..|bytes| - 1]) + [DigitChar(bytes[|bytes| - 1] / 16), DigitChar(bytes[|bytes| - 1] % 16)]
  }

  function HexBytes(s: string): Option<Bytes> {
    if s == "" then Some([])
    else if |s| == 1 || !IsDigit(s[|s| - 2], 16) || !IsDigit(s[|s| - 1], 16) then None
    else
      var rest := HexBytes(s[..|s| - 2]);
      if rest.None? then None else Some(rest.value + [DigitValue(s[|s| - 2]).value * 16 + DigitValue(s[|s| - 1]).value])
  }

  lemma HexBytesNext(s: string, high: char, low: char)
    requires IsDigit(high, 16) && IsDigit(low, 16) && HexBytes(s).Some?
    ensures HexBytes(s + [high, low]) == Some(HexBytes(s).value + [DigitValue(high).value * 16 + DigitValue(low).value])
  {
    hide DigitValue;
    var all := s + [high, low];
    assert all[..|all| - 2] == s;
  }

  lemma {:induction false} HexBytesRoundTrip(bytes: Bytes)
    ensures HexBytes(HexText(bytes)) == Some(bytes) && AllDigits(HexText(bytes), 16) && |HexText(bytes)| == 2 * |bytes|
    decreases |bytes|
  {
    hide DigitValue, DigitChar;
    if bytes != [] {
      var n, b := |bytes| - 1, bytes[|bytes| - 1];
      HexBytesRoundTrip(bytes[..n]);
      DigitRoundTrip(b / 16, 16);
      DigitRoundTrip(b % 16, 16);
      HexBytesNext(HexText(bytes[..n]), DigitChar(b / 16), DigitChar(b % 16));
      assert b / 16 * 16 + b % 16 == b;
      assert bytes == bytes[..n] + [b];
    }
  }

  lemma DigitsAreFree(body: string)
    requires AllDigits(body, 16)
    ensures Free(body)
  {
    forall i | 0 <= i <= |body| ensures !Text.At(body, "0x", i) {
      if i + 2 <= |body| { assert body[i..i + 2][1] == body[i + 1] && IsDigit(body[i + 1], 16); }
    }
  }

  // --- Notes.

  datatype Note = Note(amount: int, token: string, stealth: string, timeStamp: string, h0: (int, int), mint: string)

  datatype Base58 = Base58(decode: string -> Option<Bytes>, encode: Bytes -> string)

  /** The fields of a note and its owner's encryption key, without their prefixes. */
  function Bodies(c: Base58, u: Note, encryptionKey: string): Option<seq<string>> {
    var ts := ParseBigInt(u.timeStamp);
    if ts.None? || (u.mint != "" && c.decode(u.mint).None?) then None
    else
      Some([ToBeHex(u.amount)[2..], Ensure0x(u.token)[2..], Ensure0x(u.stealth)[2..], ToBeHex(ts.value)[2..],
            ToBeHex(u.h0.0)[2..], ToBeHex(u.h0.1)[2..], Ensure0x(encryptionKey)[2..]]
           + if u.mint == "" then [] else [HexText(c.decode(u.mint).value)])
  }

  method NoteText(c: Base58, u: Note, encryptionKey: string) returns (text: Option<string>)
    ensures text == if Bodies(c, u, encryptionKey).None? then None else Some(Join(Bodies(c, u, encryptionKey).value))
    ensures text.Some? <==> ParseBigInt(u.timeStamp).Some? && (u.mint == "" || c.decode(u.mint).Some?)
    ensures text.Some? ==>
              text.value == ToBeHex(u.amount) + Ensure0x(u.token) + Ensure0x(u.stealth) + ToBeHex(ParseBigInt(u.timeStamp).value)
                            + ToBeHex(u.h0.0) + ToBeHex(u.h0.1) + Ensure0x(encryptionKey)
                            + if u.mint == "" then "" else "0x" + HexText(c.decode(u.mint).value)
  {
    hide ParseBigInt, HexText, ToBeHex, Join;
    var ts := ParseBigInt(u.timeStamp);
    if ts.None? {
      return None;
    }
    var parts := [ToBeHex(u.amount), Ensure0x(u.token), Ensure0x(u.stealth), ToBeHex(ts.value),
                  ToBeHex(u.h0.0), ToBeHex(u.h0.1), Ensure0x(encryptionKey)];
    if u.mint != "" {
      var mint := c.decode(u.mint);
      if mint.None? {
        return None;
      }
      parts := parts + ["0x" + HexText(mint.value)];
    }
    HexPrefix(u.amount);
    HexPrefix(ts.value);
    HexPrefix(u.h0.0);
    HexPrefix(u.h0.1);
    var buf := Concat(parts, Bodies(c, u, encryptionKey).value);
    EightFields(parts, Bodies(c, u, encryptionKey).value);
    text := Some(buf);
  }

  lemma EightFields(parts: seq<string>, bodies: seq<string>)
    requires 7 <= |parts| == |bodies| <= 8 && forall i :: 0 <= i < |parts| ==> parts[i] == "0x" + bodies[i]
    ensures Join(bodies) == parts[0] + parts[1] + parts[2] + parts[3] + parts[4] + parts[5] + parts[6] + if |parts| == 8 then parts[7] else ""
  {
    hide Join;
    var rest: seq<string> := bodies;
    var front := "";
    for i := 0 to 7
      invariant rest == bodies[i..] && Join(bodies) == front + Join(rest)
      invariant front == Front(parts, i)
    {
      JoinNext(rest);
      assert front + (parts[i] + Join(rest[1..])) == (front + parts[i]) + Join(rest[1..]);
      front := front + parts[i];
      rest := rest[1..];
    }
    if |parts| == 8 {
      JoinNext(rest);
      assert rest[1..] == [];
    }
    NothingJoined();
    FrontOfSeven(parts);
  }

  function Front(parts: seq<string>, n: nat): string
    requires n <= |parts|
  {
    if n == 0 then "" else Front(parts, n - 1) + parts[n - 1]
  }

  lemma FrontOfSeven(parts: seq<string>)
    requires |parts| >= 7
    ensures Front(parts, 7) == parts[0] + parts[1] + parts[2] + parts[3] + parts[4] + parts[5] + parts[6]
  {
    assert Front(parts, 0) == "";
    assert Front(parts, 1) == "" + parts[0] == parts[0];
    assert Front(parts, 2) == parts[0] + parts[1];
    assert Front(parts, 3) == parts[0] + parts[1] + parts[2];
    assert Front(parts, 4) == parts[0] + parts[1] + parts[2] + parts[3];
    assert Front(parts, 5) == parts[0] + parts[1] + parts[2] + parts[3] + parts[4];
    assert Front(parts, 6) == parts[0] + parts[1] + parts[2] + parts[3] + parts[4] + parts[5];
  }

  lemma JoinNext(bodies: seq<string>)
    requires bodies != []
    ensures Join(bodies) == ("0x" + bodies[0]) + Join(bodies[1..])
  {
    assert "0x" + (bodies[0] + Join(bodies[1..])) == ("0x" + bodies[0]) + Join(bodies[1..]);
  }

  lemma NothingJoined()
    ensures Join([]) == ""
  {
  }

  lemma HexPrefix(n: int)
    ensures ToBeHex(n) == "0x" + ToBeHex(n)[2..]
  {
  }

  method Concat(parts: seq<string>, ghost bodies: seq<string>) returns (buf: string)
    requires |parts| == |bodies| && forall i :: 0 <= i < |parts| ==> parts[i] == "0x" + bodies[i]
    ensures buf == Join(bodies)
  {
    buf := "";
    for i := 0 to |parts|
      invariant buf + Join(bodies[i..]) == Join(bodies)
    {
      assert bodies[i..][0] == bodies[i] && bodies[i..][1..] == bodies[i + 1..];
      assert buf + ("0x" + (bodies[i] + Join(bodies[i + 1..]))) == (buf + parts[i]) + Join(bodies[i + 1..]);
      buf := buf + parts[i];
    }
    assert bodies[|parts|..] == [];
  }

  /** A note from its fields; what is not a note of at least seven readable fields is refused, a mint that is not 32 bytes is dropped. */
  function NoteOf(c: Base58, parts: seq<string>): Option<Note> {
    if |parts| < 7 then None
    else
      var amount, ts := ParseBigInt("0x" + parts[0]), ParseBigInt("0x" + parts[3]);
      var hx, hy := ParseBigInt("0x" + parts[4]), ParseBigInt("0x" + parts[5]);
      if amount.None? || ts.None? || hx.None? || hy.None? then None
      else
        var mintBytes := if |parts| > 7 then HexBytes(parts[7]) else None;
        var mint := if mintBytes.Some? && |mintBytes.value| == 32 then c.encode(mintBytes.value) else "";
        Some(Note(amount.value, "0x" + parts[1], "0x" + parts[2], Numbers.Text(ts.value, 10), (hx.value, hy.value), mint))
  }

  /** A field that survives the cut: with something in it, and no separator. */
  predicate Survives(value: string) {
    Ensure0x(value)[2..] != "" && Free(Ensure0x(value)[2..])
  }

  lemma NumberField(n: nat)
    ensures ToBeHex(n)[2..] != "" && Free(ToBeHex(n)[2..]) && "0x" + ToBeHex(n)[2..] == ToBeHex(n)
    ensures ParseBigInt("0x" + ToBeHex(n)[2..]) == Some(n)
  {
    hide Digits, Value, ParseBigInt, AllDigits, Free;
    DigitsRoundTrip(n, 16);
    LeadingZero(Digits(n, 16), 16);
    assert "0x" + ToBeHex(n)[2..] == ToBeHex(n);
    DigitsAreFree(ToBeHex(n)[2..]);
    ToBeHexRoundTripIff(n);
  }

  /** The note as read back: addresses with their prefix, the time stamp in plain decimal. */
  function Normal(u: Note): Note
    requires ParseBigInt(u.timeStamp).Some?
  {
    u.(token := Ensure0x(u.token), stealth := Ensure0x(u.stealth), timeStamp := Numbers.Text(ParseBigInt(u.timeStamp).value, 10))
  }

  predicate Writable(c: Base58, u: Note, key: string) {
    && Bodies(c, u, key).Some?
    && u.amount >= 0 && u.h0.0 >= 0 && u.h0.1 >= 0 && ParseBigInt(u.timeStamp).value >= 0
    && Survives(u.token) && Survives(u.stealth) && Survives(key)
    && (u.mint != "" ==> c.decode(u.mint).value != [] && c.encode(c.decode(u.mint).value) == u.mint)
  }

  /** Reading the written text restores the note, its mint exactly when it has 32 bytes. */
  lemma NoteRestored(c: Base58, u: Note, key: string)
    requires Writable(c, u, key)
    ensures var back := NoteOf(c, NonEmpty(Text.Split(Join(Bodies(c, u, key).value), "0x")));
            && back.Some? && back.value.(mint := u.mint) == Normal(u)
            && (back.value.mint == u.mint <==> u.mint == "" || |c.decode(u.mint).value| == 32)
  {
    hide ParseBigInt, ToBeHex, Free, Text.Split, NonEmpty, Join, HexText, HexBytes, Numbers.Text;
    var bodies := Bodies(c, u, key).value;
    NumberField(u.amount);
    NumberField(ParseBigInt(u.timeStamp).value);
    NumberField(u.h0.0);
    NumberField(u.h0.1);
    if u.mint != "" { MintField(c.decode(u.mint).value); }
    assert AllFree(bodies);
    FieldsRecoveredIff(bodies);
    assert "0x" + Ensure0x(u.token)[2..] == Ensure0x(u.token) && "0x" + Ensure0x(u.stealth)[2..] == Ensure0x(u.stealth);
  }

  /** The written text cut off after fewer than seven of its fields is no note. */
  lemma CutNoteIsRefused(c: Base58, u: Note, key: string, n: nat)
    requires Writable(c, u, key) && n < 7
    ensures NoteOf(c, NonEmpty(Text.Split(Join(Bodies(c, u, key).value[..n]), "0x"))) == None
  {
    hide ParseBigInt, ToBeHex, Free, Text.Split, NonEmpty, Join, HexText, HexBytes, Numbers.Text;
    var bodies := Bodies(c, u, key).value;
    NumberField(u.amount);
    NumberField(ParseBigInt(u.timeStamp).value);
    NumberField(u.h0.0);
    NumberField(u.h0.1);
    FieldsRecoveredIff(bodies[..n]);
  }

  lemma DecimalParses(v: string)
    requires v != "" && AllDigits(v, 10)
    ensures ParseBigInt(v) == Some(Value(v, 10))
  {
    hide Value;
    DigitAt(v, 0, 10);
    DigitAt(v, |v| - 1, 10);
    if |v| >= 2 { DigitAt(v, 1, 10); }
    assert TrimSpace(v) == v;
  }

  /** Digits read as hexadecimal give more, unless there is only one that counts. */
  lemma {:induction false} HexIsMore(v: string)
    requires AllDigits(v, 10)
    ensures AllDigits(v, 16) && Value(v, 16) >= Value(v, 10)
    ensures Value(v, 16) == Value(v, 10) <==> Value(v, 10) < 10
    decreases |v|
  {
    if v != "" { HexIsMore(v[..|v| - 1]); }
  }

  lemma NotDecimal(v: string)
    requires v != "" && AllDigits(v, 16) && !AllDigits(v, 10)
    ensures ParseBigInt(v) == None
  {
    hide Value;
    DigitAt(v, 0, 16);
    DigitAt(v, |v| - 1, 16);
    assert TrimSpace(v) == v;
    if |v| >= 2 { DigitAt(v, 1, 16); }
  }

  /** Adding the prefix to an address makes it another number, unless it was there already or the address is a single decimal digit. */
  lemma PrefixKeepsNumberIff(v: string)
    requires Ensure0x(v) == v || (v != "" && AllDigits(v, 16))
    ensures ParseBigInt(Ensure0x(v)) == ParseBigInt(v) <==> Ensure0x(v) == v || (AllDigits(v, 10) && Value(v, 10) < 10)
  {
    hide ParseBigInt, SetString, Value, AllDigits;
    if Ensure0x(v) != v {
      DigitAt(v, |v| - 1, 16);
      ParsePrefixed(v);
      SetPlain(v, 16);
      if AllDigits(v, 10) {
        DecimalParses(v);
        HexIsMore(v);
      } else {
        NotDecimal(v);
      }
    }
  }

  // --- Sealed notes.

  predicate OneByteChars(s: string) {
    forall i :: 0 <= i < |s| ==> s[i] as int < 256
  }

  function BytesOf(s: string): Bytes
    requires OneByteChars(s)
  {
    seq(|s|, i requires 0 <= i < |s| => s[i] as int)
  }

  function TextOf(bytes: Bytes): string {
    seq(|bytes|, i requires 0 <= i < |bytes| => bytes[i] as char)
  }

  /** What the owner of the first recipient key reads of a sealed text; the index is always the first. */
  function OpenNote(b: Boxes, c: Base58, packed: Bytes, pk: Bytes, sk: Bytes): Option<Note> {
    var parts := Unpack(packed, 0);
    if parts.Err? then None
    else
      var plain := OpenUnpacked(b, parts.value, pk, sk);
      if plain.Err? then None else NoteOf(c, NonEmpty(Text.Split(TextOf(plain.value), "0x")))
  }

  /** A note sealed for its owner first, and at most 254 others, opens to the note written. */
  lemma SealedNoteRestored(b: Boxes, c: Base58, u: Note, keyText: string, recipients: seq<Bytes>, key: Bytes, nonce: Bytes, draws: seq<Bytes>, sk: Bytes)
    requires Writable(c, u, keyText) && OneByteChars(Join(Bodies(c, u, keyText).value))
    requires Sound(b) && |key| == SECRET_KEY_BYTES && |nonce| == NONCE_BYTES && 0 < |recipients| == |draws| <= 255
    requires SealFor(b, key, recipients, draws, |recipients|).Some? && recipients[0] == b.publicKey(sk)
    ensures var packed := Packed(b, BytesOf(Join(Bodies(c, u, keyText).value)), recipients, key, nonce, draws);
            var back := OpenNote(b, c, packed, b.publicKey(sk), sk);
            && back.Some? && back.value.(mint := u.mint) == Normal(u)
            && (back.value.mint == u.mint <==> u.mint == "" || |c.decode(u.mint).value| == 32)
  {
    hide Normal, NoteOf, NonEmpty, Text.Split, Join, Bodies, OpenNote, Packed, SealFor, Sound;
    SealedTextOpens(b, c, Join(Bodies(c, u, keyText).value), recipients, key, nonce, draws, sk);
    NoteRestored(c, u, keyText);
  }

  lemma SealedTextOpens(b: Boxes, c: Base58, text: string, recipients: seq<Bytes>, key: Bytes, nonce: Bytes, draws: seq<Bytes>, sk: Bytes)
    requires OneByteChars(text)
    requires Sound(b) && |key| == SECRET_KEY_BYTES && |nonce| == NONCE_BYTES && 0 < |recipients| == |draws| <= 255
    requires SealFor(b, key, recipients, draws, |recipients|).Some? && recipients[0] == b.publicKey(sk)
    ensures OpenNote(b, c, Packed(b, BytesOf(text), recipients, key, nonce, draws), b.publicKey(sk), sk)
            == NoteOf(c, NonEmpty(Text.Split(text, "0x")))
  {
    hide NoteOf, NonEmpty, Text.Split, Text.Find, Unpack, OpenUnpacked, Packed, SealFor, Sound, BytesOf, TextOf;
    SealedKeysRoundTripIff(b, BytesOf(text), recipients, key, nonce, draws, 0, sk);
    TextRoundTrip(text);
  }

  lemma TextRoundTrip(text: string)
    requires OneByteChars(text)
    ensures TextOf(BytesOf(text)) == text
  {
  }

  lemma MintField(bytes: Bytes)
    ensures HexBytes(HexText(bytes)) == Some(bytes) && Free(HexText(bytes))
    ensures bytes != [] ==> HexText(bytes) != ""
  {
    HexBytesRoundTrip(bytes);
    DigitsAreFree(HexText(bytes));
  }
}
