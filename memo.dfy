/**
  The memo envelope protocol.  `encode` turns a memo marked with a leading '#' into
  '#' + base58(serialized envelope), the envelope holding the sender key, the recipient key
  and the cipher's nonce, checksum and ciphertext of the framed text; `decode` reverses it
  for a holder of either private key.  Unmarked memos pass through both unchanged.

  `Encoding` and `Decoding` are the values the two operations produce; the methods `Encode`
  and `Decode` do the same work step by step, framing through a ByteBuffer, and are proved
  to return exactly those values.
*/
module Memo {
  import opened BoundedInts
  import opened Wrappers
  import opened Primitives
  import opened Framing
  import opened ByteCursor

  /** The mark that asks for encryption / decryption. */
  const SENTINEL: char := '#'

  /** The `memo` argument: a falsy value, a truthy value that is no string, or a string. */
  datatype MemoArg = Missing | NotAString | Str(s: string)

  datatype MemoError =
    | MemoRequired          // assert(memo): also the empty string, which is falsy
    | MemoNotString         // assert.equal(typeof memo, 'string')
    | PrivateKeyRequired
    | PublicKeyRequired
    | InvalidToken          // base58.decode rejects the token
    | MalformedEnvelope     // encMemo.fromBuffer rejects the bytes
    | IntegrityCheckFailed  // Aes.decrypt rejects the checksum
    | FramePrefixTruncated  // the fallback readVarint32 runs out of bytes

  /** The two argument assertions both operations start with. */
  function RequireMemo(memo: MemoArg): Result<string, MemoError> {
    match memo
    case Missing => Err(MemoRequired)
    case NotAString => Err(MemoNotString)
    case Str(s) => if s == "" then Err(MemoRequired) else Ok(s)
  }

  /** `/^#/.test(memo)` */
  predicate IsMarked(s: string) {
    |s| > 0 && s[0] == SENTINEL
  }

  /** `memo.substring(1)` on a marked memo: exactly the one leading mark goes. */
  function Strip(s: string): (r: string)
    requires IsMarked(s)
    ensures [SENTINEL] + r == s
  {
    s[1..]
  }

  /**
    The key text to decrypt with: `to` when the caller's own key text is that of `from`,
    `from` otherwise.  It is the caller's own key only for a memo sent to oneself.
  */
  function SelectCounterparty(own: string, from: PublicKey, to: PublicKey,
                              toText: PublicKey -> string): (r: string)
    ensures r == toText(from) || r == toText(to)
    ensures r == own <==> own == toText(from) && own == toText(to)
    ensures own != toText(from) ==> r == toText(from)
  {
    if own == toText(from) then toText(to) else toText(from)
  }

  /** `encMemo.fromObject({from, to, nonce, check, encrypted})` */
  function BuildEnvelope(from: PublicKey, to: PublicKey, sealed: Sealed): Envelope {
    Envelope(from, to, sealed.nonce, sealed.checksum, sealed.message)
  }

  /** The frame that `encode` encrypts for the text after the mark. */
  function PlainFrame(caps: Capabilities, text: string): seq<uint8> {
    Frame(caps.utf8.encode(text))
  }

  /** The cipher output for a memo text sent from `sk` to `pk`. */
  function SealText(caps: Capabilities, sk: PrivateKey, pk: PublicKey, text: string,
                    testNonce: Option<uint64>): Sealed {
    caps.cipher.encrypt(sk, pk, PlainFrame(caps, text), testNonce)
  }

  /** What `encode(private_key, public_key, memo, testNonce)` returns. */
  function Encoding(caps: Capabilities, privateKey: Option<PrivateKey>,
                    publicKey: Option<PublicKey>, memo: MemoArg,
                    testNonce: Option<uint64>): Result<string, MemoError>
  {
    var s :- RequireMemo(memo);
    if !IsMarked(s) then Ok(s)
    else if privateKey.None? then Err(PrivateKeyRequired)
    else if publicKey.None? then Err(PublicKeyRequired)
    else
      var sk, pk := privateKey.value, publicKey.value;
      var sealed := SealText(caps, sk, pk, Strip(s), testNonce);
      var envelope := BuildEnvelope(caps.keys.toPublicKey(sk), pk, sealed);
      Ok([SENTINEL] + caps.base58.encode(caps.serializer.toBuffer(envelope)))
  }

  /** The counterparty key text the holder of `sk` decrypts an envelope with. */
  function CounterpartyOf(caps: Capabilities, sk: PrivateKey, envelope: Envelope): string {
    SelectCounterparty(caps.keys.toText(caps.keys.toPublicKey(sk)),
                       envelope.from, envelope.to, caps.keys.toText)
  }

  /** Decryption of an envelope by the holder of `sk`. */
  function OpenEnvelope(caps: Capabilities, sk: PrivateKey, envelope: Envelope): Option<seq<uint8>> {
    caps.cipher.decrypt(sk, CounterpartyOf(caps, sk, envelope), envelope.nonce,
                        envelope.encrypted, envelope.check)
  }

  /** What `decode(private_key, memo)` returns, with the fallback's warning if it gave one. */
  function Decoding(caps: Capabilities, privateKey: Option<PrivateKey>, memo: MemoArg)
    : Result<Unframed, MemoError>
  {
    var s :- RequireMemo(memo);
    if !IsMarked(s) then Ok(Unframed(s, None))
    else if privateKey.None? then Err(PrivateKeyRequired)
    else
      match caps.base58.decode(Strip(s))
      case None => Err(InvalidToken)
      case Some(bytes) =>
        match caps.serializer.fromBuffer(bytes)
        case None => Err(MalformedEnvelope)
        case Some(envelope) =>
          match OpenEnvelope(caps, privateKey.value, envelope)
          case None => Err(IntegrityCheckFailed)
          case Some(frame) =>
            match Unframe(frame, caps.utf8)
            case Err(_) => Err(FramePrefixTruncated)
            case Ok(u) => Ok(u)
  }

  /** `encode`, step by step. */
  method Encode(caps: Capabilities, privateKey: Option<PrivateKey>, publicKey: Option<PublicKey>,
                memo: MemoArg, testNonce: Option<uint64>) returns (r: Result<string, MemoError>)
    ensures r == Encoding(caps, privateKey, publicKey, memo, testNonce)
  {
    var s :- RequireMemo(memo);
    if !IsMarked(s) {
      return Ok(s);
    }
    var text := Strip(s);
    if privateKey.None? {
      return Err(PrivateKeyRequired);
    }
    if publicKey.None? {
      return Err(PublicKeyRequired);
    }
    var mbuf := new ByteBuffer.Allocate(DEFAULT_CAPACITY);
    mbuf.WriteVString(text, caps.utf8.encode);
    var frame := mbuf.Copy(0, mbuf.offset);
    var enc := caps.cipher.encrypt(privateKey.value, publicKey.value, frame, testNonce);
    var envelope := BuildEnvelope(caps.keys.toPublicKey(privateKey.value), publicKey.value, enc);
    var bytes := caps.serializer.toBuffer(envelope);
    return Ok([SENTINEL] + caps.base58.encode(bytes));
  }

  /** `decode`, step by step: strict `readVString` first, the fallback when it fails. */
  method Decode(caps: Capabilities, privateKey: Option<PrivateKey>, memo: MemoArg)
    returns (r: Result<Unframed, MemoError>)
    ensures r == Decoding(caps, privateKey, memo)
  {
    var s :- RequireMemo(memo);
    if !IsMarked(s) {
      return Ok(Unframed(s, None));
    }
    var token := Strip(s);
    if privateKey.None? {
      return Err(PrivateKeyRequired);
    }
    var sk := privateKey.value;
    var bytes := caps.base58.decode(token);
    if bytes.None? {
      return Err(InvalidToken);
    }
    var parsed := caps.serializer.fromBuffer(bytes.value);
    if parsed.None? {
      return Err(MalformedEnvelope);
    }
    var envelope := parsed.value;
    var pubkey := caps.keys.toText(caps.keys.toPublicKey(sk));
    var otherpub := SelectCounterparty(pubkey, envelope.from, envelope.to, caps.keys.toText);
    var plain := caps.cipher.decrypt(sk, otherpub, envelope.nonce, envelope.encrypted, envelope.check);
    if plain.None? {
      return Err(IntegrityCheckFailed);
    }
    var mbuf := new ByteBuffer.FromBytes(plain.value);
    var strict := mbuf.ReadVString(caps.utf8.decodeStrict);
    if strict.Ok? {
      return Ok(Unframed(strict.value, None));
    }
    var len := mbuf.ReadVarint32();
    if len.Err? {
      return Err(FramePrefixTruncated);
    }
    var remaining := mbuf.Remaining();
    var warning := if len.value != remaining then Some(LengthMismatch(len.value, remaining)) else None;
    var rest := mbuf.RemainingBytes();
    return Ok(Unframed(caps.utf8.decodeLenient(rest), warning));
  }

  /** A memo without the mark comes back unchanged from both operations, whatever the keys. */
  lemma UnmarkedPassesThrough(caps: Capabilities, privateKey: Option<PrivateKey>,
                              publicKey: Option<PublicKey>, s: string, testNonce: Option<uint64>)
    requires s != "" && !IsMarked(s)
    ensures Encoding(caps, privateKey, publicKey, Str(s), testNonce) == Ok(s)
    ensures Decoding(caps, privateKey, Str(s)) == Ok(Unframed(s, None))
  {
  }

  /** A missing, empty or non-string memo is rejected by both, before the mark is looked at. */
  lemma BadMemoRejected(caps: Capabilities, privateKey: Option<PrivateKey>,
                        publicKey: Option<PublicKey>, memo: MemoArg, testNonce: Option<uint64>)
    requires !memo.Str? || memo.s == ""
    ensures Encoding(caps, privateKey, publicKey, memo, testNonce) ==
            Err(if memo.NotAString? then MemoNotString else MemoRequired)
    ensures Decoding(caps, privateKey, memo) ==
            Err(if memo.NotAString? then MemoNotString else MemoRequired)
  {
  }

  /** Keys are demanded only of a marked memo: decode needs the private key, encode both. */
  lemma KeysRequiredWhenMarked(caps: Capabilities, sk: PrivateKey, pk: Option<PublicKey>,
                               s: string, testNonce: Option<uint64>)
    requires IsMarked(s)
    ensures Decoding(caps, None, Str(s)) == Err(PrivateKeyRequired)
    ensures Encoding(caps, None, pk, Str(s), testNonce) == Err(PrivateKeyRequired)
    ensures Encoding(caps, Some(sk), None, Str(s), testNonce) == Err(PublicKeyRequired)
  {
  }

  /**
    The token of a marked memo is the mark followed by base-58 of the serialized envelope,
    and that envelope carries the sender's own public key, the recipient key and the
    cipher's nonce, checksum and ciphertext of the framed text, unchanged.
  */
  lemma EncodedEnvelope(caps: Capabilities, sk: PrivateKey, pk: PublicKey, text: string,
                        testNonce: Option<uint64>)
    requires caps.serializer.Lawful() && caps.base58.Lawful()
    ensures var t := Encoding(caps, Some(sk), Some(pk), Str([SENTINEL] + text), testNonce);
      && t.Ok? && IsMarked(t.value)
      && caps.base58.decode(Strip(t.value)).Some?
      && var sealed := SealText(caps, sk, pk, text, testNonce);
         caps.serializer.fromBuffer(caps.base58.decode(Strip(t.value)).value) ==
           Some(Envelope(caps.keys.toPublicKey(sk), pk, sealed.nonce, sealed.checksum, sealed.message))
  {
    var s := [SENTINEL] + text;
    assert IsMarked(s) && Strip(s) == text;
    var sealed := SealText(caps, sk, pk, text, testNonce);
    var envelope := BuildEnvelope(caps.keys.toPublicKey(sk), pk, sealed);
    var t := [SENTINEL] + caps.base58.encode(caps.serializer.toBuffer(envelope));
    assert Encoding(caps, Some(sk), Some(pk), Str(s), testNonce) == Ok(t);
    assert Strip(t) == caps.base58.encode(caps.serializer.toBuffer(envelope));
  }

  /** With a test nonce, the envelope inside the token carries exactly that nonce. */
  lemma TestNonceIsUsed(caps: Capabilities, sk: PrivateKey, pk: PublicKey, text: string, nonce: uint64)
    requires caps.RoundTrips()
    ensures var t := Encoding(caps, Some(sk), Some(pk), Str([SENTINEL] + text), Some(nonce));
      && t.Ok? && IsMarked(t.value)
      && caps.base58.decode(Strip(t.value)).Some?
      && var envelope := caps.serializer.fromBuffer(caps.base58.decode(Strip(t.value)).value);
         envelope.Some? && envelope.value.nonce == nonce
  {
    EncodedEnvelope(caps, sk, pk, text, Some(nonce));
  }

  /** For a memo to oneself the counterparty is one's own key. */
  lemma SelfMemoCounterparty(caps: Capabilities, sk: PrivateKey, envelope: Envelope)
    requires envelope.from == envelope.to == caps.keys.toPublicKey(sk)
    ensures CounterpartyOf(caps, sk, envelope) == caps.keys.toText(caps.keys.toPublicKey(sk))
  {
  }

  /**
    A successful decoding of a marked memo went through a decryption that accepted the
    checksum, and its text is the unframing of exactly what that decryption returned.
  */
  lemma DecodedOnlyThroughChecksum(caps: Capabilities, sk: PrivateKey, s: string)
    requires IsMarked(s)
    requires Decoding(caps, Some(sk), Str(s)).Ok?
    ensures caps.base58.decode(Strip(s)).Some?
    ensures caps.serializer.fromBuffer(caps.base58.decode(Strip(s)).value).Some?
    ensures var envelope := caps.serializer.fromBuffer(caps.base58.decode(Strip(s)).value).value;
      && OpenEnvelope(caps, sk, envelope).Some?
      && Unframe(OpenEnvelope(caps, sk, envelope).value, caps.utf8) ==
         Ok(Decoding(caps, Some(sk), Str(s)).value)
  {
  }

  /** A token outside the base-58 alphabet is rejected before anything else is tried. */
  lemma InvalidTokenRejected(caps: Capabilities, sk: PrivateKey, s: string)
    requires IsMarked(s)
    requires caps.base58.decode(Strip(s)).None?
    ensures Decoding(caps, Some(sk), Str(s)) == Err(InvalidToken)
  {
  }

  /** Bytes that do not parse as an envelope are rejected before decryption. */
  lemma MalformedEnvelopeRejected(caps: Capabilities, sk: PrivateKey, s: string, bytes: seq<uint8>)
    requires IsMarked(s)
    requires caps.base58.decode(Strip(s)) == Some(bytes)
    requires caps.serializer.fromBuffer(bytes).None?
    ensures Decoding(caps, Some(sk), Str(s)) == Err(MalformedEnvelope)
  {
  }

  /** A rejected checksum is final: decoding fails and yields no text. */
  lemma ChecksumRejectionFails(caps: Capabilities, sk: PrivateKey, s: string, bytes: seq<uint8>,
                               envelope: Envelope)
    requires IsMarked(s)
    requires caps.base58.decode(Strip(s)) == Some(bytes)
    requires caps.serializer.fromBuffer(bytes) == Some(envelope)
    requires OpenEnvelope(caps, sk, envelope) == None
    ensures Decoding(caps, Some(sk), Str(s)) == Err(IntegrityCheckFailed)
  {
  }

  /** Common part of the round trips: the token decodes to the sealed frame's text. */
  lemma DecodeOwnToken(caps: Capabilities, decoder: PrivateKey, sk: PrivateKey, pk: PublicKey,
                       text: string, testNonce: Option<uint64>)
    requires caps.RoundTrips()
    requires |caps.utf8.encode(text)| < TWO_TO_THE_32
    requires var sealed := SealText(caps, sk, pk, text, testNonce);
      caps.cipher.decrypt(decoder,
                          CounterpartyOf(caps, decoder, BuildEnvelope(caps.keys.toPublicKey(sk), pk, sealed)),
                          sealed.nonce, sealed.message, sealed.checksum) == Some(PlainFrame(caps, text))
    ensures var t := Encoding(caps, Some(sk), Some(pk), Str([SENTINEL] + text), testNonce);
      t.Ok? && Decoding(caps, Some(decoder), Str(t.value)) == Ok(Unframed(text, None))
  {
    EncodedEnvelope(caps, sk, pk, text, testNonce);
    UnframeRoundTrip(text, caps.utf8);
  }

  /** The sender can read back what they encoded, for any recipient key. */
  lemma SenderRoundTrip(caps: Capabilities, sk: PrivateKey, pk: PublicKey, text: string,
                        testNonce: Option<uint64>)
    requires caps.RoundTrips()
    requires |caps.utf8.encode(text)| < TWO_TO_THE_32
    ensures var t := Encoding(caps, Some(sk), Some(pk), Str([SENTINEL] + text), testNonce);
      t.Ok? && Decoding(caps, Some(sk), Str(t.value)) == Ok(Unframed(text, None))
  {
    var sealed := SealText(caps, sk, pk, text, testNonce);
    var envelope := BuildEnvelope(caps.keys.toPublicKey(sk), pk, sealed);
    assert CounterpartyOf(caps, sk, envelope) == caps.keys.toText(pk);
    DecodeOwnToken(caps, sk, sk, pk, text, testNonce);
  }

  /** The recipient, holding the private key of `to`, reads the sender's text. */
  lemma RecipientRoundTrip(caps: Capabilities, skA: PrivateKey, skB: PrivateKey, text: string,
                           testNonce: Option<uint64>)
    requires caps.RoundTrips()
    requires |caps.utf8.encode(text)| < TWO_TO_THE_32
    ensures var t := Encoding(caps, Some(skA), Some(caps.keys.toPublicKey(skB)),
                              Str([SENTINEL] + text), testNonce);
      t.Ok? && Decoding(caps, Some(skB), Str(t.value)) == Ok(Unframed(text, None))
  {
    var pkB := caps.keys.toPublicKey(skB);
    var sealed := SealText(caps, skA, pkB, text, testNonce);
    var envelope := BuildEnvelope(caps.keys.toPublicKey(skA), pkB, sealed);
    assert CounterpartyOf(caps, skB, envelope) == caps.keys.toText(caps.keys.toPublicKey(skA));
    DecodeOwnToken(caps, skB, skA, pkB, text, testNonce);
  }
}
