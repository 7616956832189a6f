/**
 One message for several recipients: the message is sealed once under a content key, and the content key once for
 every recipient. Layout: recipient count, nonce, the sealed content keys, the sealed message.
 */
module SealedKeys {
  import opened Wrappers
  import opened RawBytes

  const SECRET_KEY_BYTES: nat := 32
  const NONCE_BYTES: nat := 24
  const SEALED_KEY_LEN: nat := 80

  /** The box and secret-box primitives. Sealing for a public key draws on randomness and may fail. */
  datatype Boxes = Boxes(
    publicKey: Bytes -> Bytes,
    sealAnonymous: (Bytes, Bytes, Bytes) -> Option<Bytes>,
    openAnonymous: (Bytes, Bytes, Bytes) -> Option<Bytes>,
    seal: (Bytes, Bytes, Bytes) -> Bytes,
    open: (Bytes, Bytes, Bytes) -> Option<Bytes>)

  /** A sealed content key has 80 bytes and opens with the recipient's key pair. */
  predicate KeyOpens(b: Boxes, key: Bytes, pk: Bytes, sk: Bytes, draw: Bytes) {
    var sealed := b.sealAnonymous(key, pk, draw);
    sealed.Some? && |key| == SECRET_KEY_BYTES ==>
      |sealed.value| == SEALED_KEY_LEN && (pk == b.publicKey(sk) ==> b.openAnonymous(sealed.value, pk, sk) == Some(key))
  }

  /** A text opens to a message exactly when it is that message sealed. */
  predicate MessageOpens(b: Boxes, c: Bytes, msg: Bytes, nonce: Bytes, key: Bytes) {
    b.open(c, nonce, key) == Some(msg) <==> c == b.seal(msg, nonce, key)
  }

  ghost predicate Sound(b: Boxes) {
    && (forall key, pk, sk, draw :: KeyOpens(b, key, pk, sk, draw))
    && (forall c, msg, nonce, key :: MessageOpens(b, c, msg, nonce, key))
  }

  /** The content key sealed for the first n recipients, one after the other. */
  function SealFor(b: Boxes, key: Bytes, recipients: seq<Bytes>, draws: seq<Bytes>, n: nat): Option<Bytes>
    requires n <= |recipients| == |draws|
  {
    if n == 0 then Some([])
    else
      var rest, last := SealFor(b, key, recipients, draws, n - 1), b.sealAnonymous(key, recipients[n - 1], draws[n - 1]);
      if rest.None? || last.None? then None else Some(rest.value + last.value)
  }

  /** The count is one byte: it keeps only the remainder of the number of recipients modulo 256. */
  method EncryptSealedKeys(b: Boxes, msg: Bytes, recipients: seq<Bytes>, contentKey: Bytes, nonce: Bytes, draws: seq<Bytes>) returns (packed: Option<Bytes>)
    requires |draws| == |recipients|
    ensures packed ==
            var sealed := SealFor(b, contentKey, recipients, draws, |recipients|);
            if sealed.None? then None
            else Some([|recipients| % 256] + nonce + sealed.value + b.seal(msg, nonce, contentKey))
  {
    var ciphertext := b.seal(msg, nonce, contentKey);
    var head: Bytes := [|recipients| % 256] + nonce;
    var buffer := head;
    for i := 0 to |recipients|
      invariant SealFor(b, contentKey, recipients, draws, i).Some?
      invariant buffer == head + SealFor(b, contentKey, recipients, draws, i).value
    {
      var sealed := b.sealAnonymous(contentKey, recipients[i], draws[i]);
      if sealed.None? {
        SealForFails(b, contentKey, recipients, draws, i + 1);
        return None;
      }
      buffer := buffer + sealed.value;
    }
    packed := Some(buffer + ciphertext);
  }

  lemma {:induction false} SealForFails(b: Boxes, key: Bytes, recipients: seq<Bytes>, draws: seq<Bytes>, n: nat)
    requires n <= |recipients| == |draws| && SealFor(b, key, recipients, draws, n).None?
    ensures SealFor(b, key, recipients, draws, |recipients|).None?
    decreases |recipients| - n
  {
    if n < |recipients| { SealForFails(b, key, recipients, draws, n + 1); }
  }

  datatype OpenError = TooShort | IndexOutOfRange | Truncated | KeyNotOpened | MessageNotOpened

  /** The nonce, the sealed key at an index and the sealed message of a packed text. */
  function Unpack(packed: Bytes, index: int): Result<(Bytes, Bytes, Bytes), OpenError> {
    if |packed| < 1 + NONCE_BYTES then Err(TooShort)
    else
      var count, off := packed[0], 1 + NONCE_BYTES;
      if index < 0 || index >= count then Err(IndexOutOfRange)
      else if |packed| < off + count * SEALED_KEY_LEN then Err(Truncated)
      else
        KeyWithin(index, count);
        var start := off + index * SEALED_KEY_LEN;
        Ok((packed[1..off], packed[start..start + SEALED_KEY_LEN], packed[off + count * SEALED_KEY_LEN..]))
  }

  lemma KeyWithin(index: nat, count: nat)
    requires index < count
    ensures index * SEALED_KEY_LEN + SEALED_KEY_LEN <= count * SEALED_KEY_LEN
  {
  }

  function OpenUnpacked(b: Boxes, parts: (Bytes, Bytes, Bytes), pk: Bytes, sk: Bytes): Result<Bytes, OpenError> {
    var key := b.openAnonymous(parts.1, pk, sk);
    if key.None? || |key.value| != SECRET_KEY_BYTES then Err(KeyNotOpened)
    else
      var msg := b.open(parts.2, parts.0, key.value);
      if msg.None? then Err(MessageNotOpened) else Ok(msg.value)
  }

  /** The sealed key opens to a key of 32 bytes, and with it the sealed message to this one. */
  predicate OpensTo(b: Boxes, parts: (Bytes, Bytes, Bytes), pk: Bytes, sk: Bytes, msg: Bytes) {
    && b.openAnonymous(parts.1, pk, sk).Some? && |b.openAnonymous(parts.1, pk, sk).value| == 32
    && b.open(parts.2, parts.0, b.openAnonymous(parts.1, pk, sk).value) == Some(msg)
  }

  method DecryptSealedKeys(b: Boxes, packed: Bytes, pk: Bytes, sk: Bytes, recipientIndex: int) returns (msg: Result<Bytes, OpenError>)
    ensures msg ==
            var parts := Unpack(packed, recipientIndex);
            if parts.Err? then Err(parts.error) else OpenUnpacked(b, parts.value, pk, sk)
    ensures msg.Ok? ==> Unpack(packed, recipientIndex).Ok? && OpensTo(b, Unpack(packed, recipientIndex).value, pk, sk, msg.value)
  {
    if |packed| < 1 + NONCE_BYTES {
      return Err(TooShort);
    }
    var count := packed[0];
    var off := 1;
    var nonce := packed[off..off + NONCE_BYTES];
    off := off + NONCE_BYTES;
    if recipientIndex < 0 || recipientIndex >= count {
      return Err(IndexOutOfRange);
    }
    if |packed| < off + count * SEALED_KEY_LEN {
      return Err(Truncated);
    }
    KeyWithin(recipientIndex, count);
    var sealedStart := off + recipientIndex * SEALED_KEY_LEN;
    var sealedKey := packed[sealedStart..sealedStart + SEALED_KEY_LEN];
    var ciphertext := packed[off + count * SEALED_KEY_LEN..];
    var contentKey := b.openAnonymous(sealedKey, pk, sk);
    if contentKey.None? || |contentKey.value| != SECRET_KEY_BYTES {
      return Err(KeyNotOpened);
    }
    var message := b.open(ciphertext, nonce, contentKey.value);
    msg := if message.None? then Err(MessageNotOpened) else Ok(message.value);
  }

  // --- Round trip.

  function Packed(b: Boxes, msg: Bytes, recipients: seq<Bytes>, contentKey: Bytes, nonce: Bytes, draws: seq<Bytes>): Bytes
    requires |draws| == |recipients| && SealFor(b, contentKey, recipients, draws, |recipients|).Some?
  {
    [|recipients| % 256] + nonce + SealFor(b, contentKey, recipients, draws, |recipients|).value + b.seal(msg, nonce, contentKey)
  }

  /** The sealed keys have equal lengths and stand in order. */
  lemma {:induction false} SealedAt(b: Boxes, key: Bytes, recipients: seq<Bytes>, draws: seq<Bytes>, n: nat, i: nat)
    requires Sound(b) && |key| == SECRET_KEY_BYTES && i < n <= |recipients| == |draws| && SealFor(b, key, recipients, draws, n).Some?
    ensures var keys := SealFor(b, key, recipients, draws, n).value;
            && |keys| == n * SEALED_KEY_LEN && i * SEALED_KEY_LEN + SEALED_KEY_LEN <= |keys|
            && b.sealAnonymous(key, recipients[i], draws[i]) == Some(keys[i * SEALED_KEY_LEN..i * SEALED_KEY_LEN + SEALED_KEY_LEN])
    decreases n
  {
    var keys := SealFor(b, key, recipients, draws, n).value;
    var last := b.sealAnonymous(key, recipients[n - 1], draws[n - 1]).value;
    assert KeyOpens(b, key, recipients[n - 1], [], draws[n - 1]);
    if n > 1 { SealedAt(b, key, recipients, draws, n - 1, if i < n - 1 then i else 0); }
    var rest := SealFor(b, key, recipients, draws, n - 1).value;
    assert |rest| == (n - 1) * SEALED_KEY_LEN && keys == rest + last;
    if i == n - 1 {
      assert keys[|rest|..|rest| + SEALED_KEY_LEN] == last;
    } else {
      assert keys[i * SEALED_KEY_LEN..i * SEALED_KEY_LEN + SEALED_KEY_LEN] == rest[i * SEALED_KEY_LEN..i * SEALED_KEY_LEN + SEALED_KEY_LEN];
    }
  }

  /** Unpacking a packed text: past 255 recipients the count wraps, and what is left over of the sealed keys ends up in front of the message. */
  lemma UnpackPacked(b: Boxes, msg: Bytes, recipients: seq<Bytes>, key: Bytes, nonce: Bytes, draws: seq<Bytes>, i: nat)
    requires Sound(b) && |key| == SECRET_KEY_BYTES && |nonce| == NONCE_BYTES && i < |recipients| == |draws|
    requires SealFor(b, key, recipients, draws, |recipients|).Some?
    ensures var n := |recipients|;
            var keys, parts := SealFor(b, key, recipients, draws, n).value, Unpack(Packed(b, msg, recipients, key, nonce, draws), i);
            && |keys| == n * SEALED_KEY_LEN
            && (i >= n % 256 ==> parts == Err(IndexOutOfRange))
            && (i < n % 256 ==>
                  && parts.Ok?
                  && parts.value.0 == nonce
                  && b.sealAnonymous(key, recipients[i], draws[i]) == Some(parts.value.1)
                  && parts.value.2 == keys[n % 256 * SEALED_KEY_LEN..] + b.seal(msg, nonce, key))
  {
    hide SealFor;
    var n, keys := |recipients|, SealFor(b, key, recipients, draws, |recipients|).value;
    var packed := Packed(b, msg, recipients, key, nonce, draws);
    SealedAt(b, key, recipients, draws, n, i);
    assert n % 256 <= n;
    if i < n % 256 {
      KeyWithin(i, n % 256);
      var off, start := 1 + NONCE_BYTES, 1 + NONCE_BYTES + i * SEALED_KEY_LEN;
      var wrapped: nat := n % 256 * SEALED_KEY_LEN;
      assert wrapped <= |keys|;
      assert packed[1..off] == nonce;
      assert packed[start..start + SEALED_KEY_LEN] == keys[i * SEALED_KEY_LEN..i * SEALED_KEY_LEN + SEALED_KEY_LEN];
      assert packed[off + wrapped..] == keys[wrapped..] + b.seal(msg, nonce, key);
    }
  }

  /** Every recipient, at every index, reads the message exactly when there are at most 255 recipients. */
  lemma SealedKeysRoundTripIff(b: Boxes, msg: Bytes, recipients: seq<Bytes>, key: Bytes, nonce: Bytes, draws: seq<Bytes>, i: nat, sk: Bytes)
    requires Sound(b) && |key| == SECRET_KEY_BYTES && |nonce| == NONCE_BYTES && i < |recipients| == |draws|
    requires SealFor(b, key, recipients, draws, |recipients|).Some? && recipients[i] == b.publicKey(sk)
    ensures var parts := Unpack(Packed(b, msg, recipients, key, nonce, draws), i);
            (parts.Ok? && OpenUnpacked(b, parts.value, b.publicKey(sk), sk) == Ok(msg)) <==> |recipients| <= 255
  {
    hide SealFor, Packed, Unpack, Sound, OpenUnpacked;
    var n := |recipients|;
    UnpackPacked(b, msg, recipients, key, nonce, draws, i);
    if i < n % 256 {
      var parts := Unpack(Packed(b, msg, recipients, key, nonce, draws), i);
      OpensIff(b, parts.value, msg, key, sk, draws[i]);
      LeftOver(SealFor(b, key, recipients, draws, n).value, n, b.seal(msg, nonce, key));
    }
  }

  lemma OpensIff(b: Boxes, parts: (Bytes, Bytes, Bytes), msg: Bytes, key: Bytes, sk: Bytes, draw: Bytes)
    requires Sound(b) && |key| == SECRET_KEY_BYTES && b.sealAnonymous(key, b.publicKey(sk), draw) == Some(parts.1)
    ensures OpenUnpacked(b, parts, b.publicKey(sk), sk) == Ok(msg) <==> parts.2 == b.seal(msg, parts.0, key)
  {
    assert KeyOpens(b, key, b.publicKey(sk), sk, draw);
    assert MessageOpens(b, parts.2, msg, parts.0, key);
  }

  /** Nothing of the sealed keys is left in front of the message exactly when the count did not wrap. */
  lemma LeftOver(keys: Bytes, n: nat, c: Bytes)
    requires |keys| == n * SEALED_KEY_LEN
    ensures n % 256 * SEALED_KEY_LEN <= |keys|
    ensures keys[n % 256 * SEALED_KEY_LEN..] + c == c <==> n <= 255
  {
    var m: nat := n % 256 * SEALED_KEY_LEN;
    assert m <= |keys|;
    assert |keys[m..] + c| == |keys| - m + |c|;
    if n <= 255 { assert keys[m..] + c == c; }
  }
}
