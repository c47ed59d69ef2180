# Memo envelope protocol — a Dafny model

This project models the memo module of a Steem client library (`src/memo.js`): the two
operations `encode(private_key, public_key, memo, testNonce)` and `decode(private_key, memo)`.

A memo that starts with the sentinel `#` is meant to be encrypted. `encode` strips the mark
and frames the text as a varint32 byte count followed by its UTF-8 bytes, written through a
cursor `ByteBuffer`. It encrypts the frame with the shared-secret cipher and builds the
envelope `{from, to, nonce, check, encrypted}`. It then serializes the envelope and returns
`'#' + base58(bytes)`. `decode` runs the other way. It picks the counterparty key (`to` when
the caller's own public key text equals `from`, otherwise `from`) and decrypts. It then reads
the frame with the strict `readVString`. When that throws, it uses the legacy fallback: re-read
the length prefix, warn if it disagrees with the bytes left, and decode all remaining bytes
leniently. A memo without the mark passes through both operations unchanged.

Layout, one module per file:

- `wrappers.dfy` — `Option`, `Result` (with `:-` support).
- `bounded_ints.dfy` — `uint8`, `uint32`, `uint64`.
- `base128.dfy` — the base-128 varint ("Base 128 Varints" of the Protocol Buffers encoding
  guide). It has its own encoder and decoder as specification functions, and the round trip.
- `primitives.dfy` — the imported collaborators: key derivation and key text, cipher,
  envelope serializer, base-58 and UTF-8. Each is an injected value of total functions.
  A `Lawful` predicate states the facts the protocol relies on, and lemmas take it as a
  precondition.
- `framing.dfy` — the plaintext frame. `Frame` is the writer. `TryStrictFrame` and
  `FallbackLenientFrame` are the two decoding stages, kept separate. `Unframe` runs them in
  order.
- `byte_buffer.dfy` — class `ByteBuffer` (byte array, `offset` cursor, `limit`) with the
  operations memo.js uses, each proved against the specification functions; the varint read
  and write, the byte write and the resize are loops.
- `memo.dfy` — the sentinel gate, counterparty selection and envelope assembly. `Encoding`
  and `Decoding` give the values of the two operations, and the methods `Encode` and
  `Decode` compute them step by step. The module also holds the end-to-end lemmas.

The cipher's facts (`Primitives.Cipher.Lawful`):

- Decrypting with the same key pair recovers the message.
- Decrypting with the roles swapped also recovers it. This is elliptic-curve Diffie-Hellman
  symmetry: recipient private key, sender public key.
- An explicit test nonce is used as given.

Base-58 and the serializer have a decode-after-encode round trip. UTF-8 has a strict
decode-after-encode round trip (`Utf8.RoundTrips`). Separately, the lenient decoder agrees
with the strict one wherever the strict one succeeds (`Utf8.LenientAgrees`). The end-to-end
round trips assume only the round-trip laws (`Capabilities.RoundTrips`). The agreement law is
used only by `Framing.StagesAgreeOnExactFrames`.

## Model

| member | source | states |
|---|---|---|
| `Base128.EncodeGroups` | src/memo.js:72 | the varint writer emits at least one byte for any value |
| `Base128.EncodedGroupsFlags` | src/memo.js:72 | every byte of a varint except the last has the continuation bit 0x80 set, and the last does not |
| `Base128.GroupsBound` | src/memo.js:72 | a value below 128^k takes at most k bytes |
| `Base128.EncodeVarint32` | src/memo.js:72 | a 32-bit byte count takes one to five bytes |
| `Base128.ReadGroups` | src/memo.js:45 | a successful read reports between 1 and `\|s\|` bytes consumed; groups beyond the contributing budget add nothing |
| `Base128.ReadGroupsStops` | src/memo.js:45 | the reader stops at the first byte without the continuation bit, and fails exactly when there is none |
| `Base128.ParseVarint32` | src/memo.js:45 | readVarint32 reports a length within the input |
| `Base128.ParseVarint32Fails` | src/memo.js:45 | readVarint32 fails if and only if every byte carries the continuation bit (truncated prefix) |
| `Base128.ReadEncodedGroups` | src/memo.js:71-73 | reading back written groups, with any bytes after them, gives the value and the byte count |
| `Base128.ParseEncodedVarint32` | src/memo.js:71-73 | varint32 round trip: the decoder returns the written value and its exact size, whatever follows |
| `Framing.Frame` | src/memo.js:72 | `writeVString`'s record; `FrameLayout` and `StrictFrameRoundTrip` state that it is the length prefix followed by exactly the payload, and that it reads back |
| `Framing.TryStrictFrame` | src/memo.js:40 | strict `readVString`: fails on a truncated prefix, on a declared length beyond the bytes left, or on invalid UTF-8; `StrictFrameRoundTrip` states it undoes `Frame` |
| `Framing.Unframe` | src/memo.js:38-51 | strict stage, then the fallback only when it fails; `UnframeRoundTrip`, `UnframeFailsOnlyOnTruncatedPrefix` and `StagesAgreeOnExactFrames` state its properties |
| `Framing.FallbackLenientFrame` | src/memo.js:45-50 | the fallback fails only on a truncated prefix; it returns the lenient decode of every byte after the prefix and warns exactly when the declared length differs from the bytes remaining, reporting both numbers |
| `Framing.FrameLayout` | src/memo.js:71-73 | a frame is exactly varint32(byte length of the text) followed by the text bytes |
| `Framing.StrictFrameRoundTrip` | src/memo.js:37-40 | the strict reader undoes the writer, also with trailing bytes, returning the strict decode of the payload or an invalid-UTF-8 failure |
| `Framing.UnframeRoundTrip` | src/memo.js:37-40 | framing round trip: text framed by writeVString reads back unchanged, with no warning |
| `Framing.UnframeFailsOnlyOnTruncatedPrefix` | src/memo.js:38-51 | strict-then-fallback decoding fails if and only if the length prefix never ends; a wrong length never aborts |
| `Framing.OverlongPrefixDecodesWithWarning` | src/memo.js:41-50 | a prefix declaring more bytes than remain, one of the ways a frame from a non-conforming encoder fails the strict read, still decodes, leniently, with the mismatch warned |
| `Framing.StagesAgreeOnExactFrames` | src/memo.js:38-50 | where the strict stage reads exactly the remaining bytes, the fallback gives the same text and no warning |
| `ByteCursor.ByteBuffer.Allocate` | src/memo.js:71 | `new ByteBuffer(capacity)`: empty written part, cursor at 0 |
| `ByteCursor.ByteBuffer.FromBytes` | src/memo.js:37 | a buffer whose unread bytes are exactly the decrypted frame |
| `ByteCursor.ByteBuffer.Resize` | src/memo.js:72 | growing keeps every byte, the written part and the unread part |
| `ByteCursor.ByteBuffer.EnsureRoom` | src/memo.js:72 | after it the array holds at least the requested bytes; contents kept |
| `ByteCursor.ByteBuffer.WriteVarint32` | src/memo.js:72 | appends exactly the varint encoding of the value at the cursor |
| `ByteCursor.ByteBuffer.WriteBytes` | src/memo.js:72 | appends exactly the given bytes at the cursor |
| `ByteCursor.ByteBuffer.WriteVString` | src/memo.js:72 | appends exactly `Frame` of the text's UTF-8 bytes |
| `ByteCursor.ByteBuffer.Copy` | src/memo.js:73 | `copy(0, offset)` returns the written bytes |
| `ByteCursor.ByteBuffer.PeekVarint32` | src/memo.js:40 | the loop reading a varint at a position returns `ParseVarint32` of the bytes from there to the limit |
| `ByteCursor.ByteBuffer.ReadVarint32` | src/memo.js:45 | relative read: the parsed value, the cursor moved past the prefix on success and left in place on failure |
| `ByteCursor.ByteBuffer.ReadVString` | src/memo.js:40 | the strict stage over the unread bytes; cursor past the record on success, unchanged on any failure |
| `ByteCursor.ByteBuffer.Remaining` | src/memo.js:46 | `remaining()` is limit minus cursor, the number of unread bytes |
| `ByteCursor.ByteBuffer.RemainingBytes` | src/memo.js:49 | `toString('binary')` yields exactly the unread bytes |
| `Memo.RequireMemo` | src/memo.js:16-17 | the two argument assertions (lines 63-64 in encode): falsy or empty memo, then a non-string; `BadMemoRejected` and `UnmarkedPassesThrough` state their effect on both operations |
| `Memo.IsMarked` | src/memo.js:18 | the `/^#/` test of both operations (line 65); `UnmarkedPassesThrough` states that unmarked memos come back unchanged |
| `Memo.Strip` | src/memo.js:19 | exactly one leading `#` is removed: mark plus result is the input |
| `Memo.SelectCounterparty` | src/memo.js:32-33 | the result is the text of `from` or of `to`; it is the text of `from` whenever the caller's own key text differs from it; it equals the caller's own key text if and only if both `from` and `to` have that text (a self-memo) |
| `Memo.BuildEnvelope` | src/memo.js:76-82 | the envelope object; `EncodedEnvelope` states which key and cipher field lands in which slot |
| `Memo.PlainFrame` | src/memo.js:71-73 | the frame `encode` encrypts; `UnframeRoundTrip` states that it reads back to the memo text |
| `Memo.SealText` | src/memo.js:75 | the `Aes.encrypt` call on that frame; `TestNonceIsUsed` and the round-trip lemmas state what the cipher laws give about it |
| `Memo.Encoding` | src/memo.js:62-86 | the value of `encode`; `EncodedEnvelope`, `TestNonceIsUsed`, `KeysRequiredWhenMarked` and the round-trip lemmas state its properties |
| `Memo.CounterpartyOf` | src/memo.js:32-33 | the counterparty key text for the holder of a private key; `SelfMemoCounterparty` and `SelectCounterparty`'s contract state the choice |
| `Memo.OpenEnvelope` | src/memo.js:34 | the decryption with that counterparty; `ChecksumRejectionFails` and `DecodedOnlyThroughChecksum` state how its rejection and output reach decode |
| `Memo.Decoding` | src/memo.js:15-52 | the value of `decode`; `DecodedOnlyThroughChecksum`, `SenderRoundTrip` and `RecipientRoundTrip` state its properties |
| `Memo.Encode` | src/memo.js:62-86 | the step-by-step encode, with its ByteBuffer framing, returns `Encoding` |
| `Memo.Decode` | src/memo.js:15-52 | the step-by-step decode, strict readVString then the fallback on the same buffer, returns `Decoding` |
| `Memo.UnmarkedPassesThrough` | src/memo.js:18 | a non-empty memo not starting with `#` is returned unchanged by decode and by encode (line 65), whatever the keys |
| `Memo.BadMemoRejected` | src/memo.js:16-17 | a missing, empty or non-string memo is rejected by both operations (lines 63-64) before the sentinel test |
| `Memo.KeysRequiredWhenMarked` | src/memo.js:68-69 | a marked memo without a private key fails decode (line 21) and encode; with a private key but no public key, encode fails |
| `Memo.EncodedEnvelope` | src/memo.js:76-85 | the encode output starts with `#`, and its base-58 body parses to an envelope with from = sender's derived key, to = recipient key, and nonce, check, encrypted taken unchanged from the cipher result |
| `Memo.TestNonceIsUsed` | src/memo.js:75 | with an explicit test nonce, the envelope parsed back from the token carries exactly that nonce |
| `Memo.SelfMemoCounterparty` | src/memo.js:32-33 | for from = to = own key, the counterparty is the caller's own key |
| `Memo.DecodedOnlyThroughChecksum` | src/memo.js:34-40 | a successful decode of a marked memo passed a decryption that accepted the checksum, and its text is the unframing of that decryption's output |
| `Memo.InvalidTokenRejected` | src/memo.js:23 | a marked memo whose body is not base-58 fails decode with `InvalidToken` |
| `Memo.MalformedEnvelopeRejected` | src/memo.js:24 | bytes that do not parse as an envelope fail decode with `MalformedEnvelope`, before any decryption |
| `Memo.ChecksumRejectionFails` | src/memo.js:34 | when the cipher rejects the checksum, decode fails and returns no text |
| `Memo.DecodeOwnToken` | src/memo.js:32-34 | if the decoder's counterparty decryption recovers the frame, the encoded token decodes to the original text without a warning |
| `Memo.SenderRoundTrip` | src/memo.js:32-34 | the sender decodes their own token back to the text, for any recipient, including themselves |
| `Memo.RecipientRoundTrip` | src/memo.js:32-34 | the holder of the recipient key decodes the token back to the text |

## Left out

- `Aes.encrypt` / `Aes.decrypt` (ECDH and the block cipher) are injected functions. The model
  does not check that the real cipher meets `Cipher.Lawful`. It also does not prove tamper
  detection (a flipped bit is rejected), which is the cipher's job. The model proves only that
  a rejection is propagated as a failure.
- Nonce randomness: the random nonce is generated inside the injected `encrypt`, so the model
  does not capture the randomness. The "repeatable output with a fixed nonce" property holds
  trivially in a model made of functions and is not stated.
- `bs58`, the `encrypted_memo` serializer (field widths) and key parsing are not visible. They are
  abstract functions with round-trip facts. Public keys are opaque values compared only through
  their canonical text.
- UTF-8: encoding, strict validation and replacement decoding are abstract functions. The
  strict decoder's "invalid sequence" is None.
- `console.error` (line 48) is I/O. The model returns its content as the `warning` of the result.
- `Base128.ParseVarint32`: the library reinterprets a decoded length of 2^31 or more as a
  negative 32-bit number. The model keeps the unsigned value mod 2^32 instead.
- `ByteCursor.ByteBuffer.WriteVString`: the byte count is written mod 2^32, as the library
  truncates it. The round-trip lemmas therefore require the text to be shorter than 2^32 bytes.
- `ByteCursor.ByteBuffer.ReadVString`: the library checks the string's range against the
  backing buffer's length. The model checks it against `limit`; the two are equal for a buffer
  built from bytes, the only kind `decode` reads.
- Only the `ByteBuffer` operations memo.js uses are modelled. Endianness does not matter for
  varints and is not modelled.
- The `private_key` argument may be documented as a WIF string, but the code calls
  `toPublicKey()` on it directly. The model takes key objects and models a falsy key as
  `None`. `testNonce` is modelled as an optional 64-bit value.
- Thrown exceptions are error values (`MemoError`). Their messages are not modelled.

Three behaviours of the code that are easy to miss:

- The fallback path can still fail. When the length prefix never ends, decode throws; the
  model returns `FramePrefixTruncated` and does not model any warning printed on the way.
- The strict `readVString` also fails when the declared length exceeds the bytes left, not
  only on invalid UTF-8.
- The strict reader ignores any bytes after the declared length.
