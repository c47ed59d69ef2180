/**
  The plaintext frame that travels inside the cipher: a varint32 byte count followed by the
  UTF-8 bytes of the memo text.  Writing is `writeVString`; reading is the strict
  `readVString` first and, when that throws, the legacy fallback that re-reads the prefix,
  warns on a length mismatch and decodes every remaining byte leniently.
*/
module Framing {
  import opened BoundedInts
  import opened Wrappers
  import opened Base128
  import opened Primitives

  /** Why the strict reader gave up. */
  datatype FrameError = PrefixTruncated | IllegalRange | InvalidUtf8

  /** The console warning of the fallback path: declared length and bytes actually left. */
  datatype LengthMismatch = LengthMismatch(declared: uint32, remaining: nat)

  datatype Unframed = Unframed(text: string, warning: Option<LengthMismatch>)

  /** `writeVString`: the byte count (cut to 32 bits, as the writer does) then the bytes. */
  function Frame(payload: seq<uint8>): seq<uint8> {
    EncodeVarint32(|payload| % TWO_TO_THE_32) + payload
  }

  /**
    Stage one, `readVString`: the declared number of bytes after the prefix, decoded
    strictly.  Bytes beyond the declared length are ignored.
  */
  function TryStrictFrame(frame: seq<uint8>, decodeStrict: seq<uint8> -> Option<string>)
    : Result<string, FrameError>
  {
    match ParseVarint32(frame)
    case Err(_) => Err(PrefixTruncated)
    case Ok(p) =>
      if |frame| - p.size < p.value then Err(IllegalRange)
      else
        match decodeStrict(frame[p.size..p.size + p.value])
        case None => Err(InvalidUtf8)
        case Some(text) => Ok(text)
  }

  /**
    Stage two, the fallback: re-read the prefix, compare the declared length with the bytes
    left, and decode all of those bytes leniently.  A mismatch is only reported; the one way
    to fail is a prefix that never ends.
  */
  function FallbackLenientFrame(frame: seq<uint8>, decodeLenient: seq<uint8> -> string)
    : (r: Result<Unframed, FrameError>)
    ensures r.Err? <==> forall i :: 0 <= i < |frame| ==> Continues(frame[i])
    ensures r.Ok? ==> ParseVarint32(frame).Ok?
    ensures r.Ok? && ParseVarint32(frame).Ok? ==>
      var p := ParseVarint32(frame).value;
      && r.value.text == decodeLenient(frame[p.size..])
      && (r.value.warning.Some? <==> p.value != |frame| - p.size)
      && (r.value.warning.Some? ==> r.value.warning.value == LengthMismatch(p.value, |frame| - p.size))
  {
    ParseVarint32Fails(frame);
    match ParseVarint32(frame)
    case Err(_) => Err(PrefixTruncated)
    case Ok(p) =>
      var remaining := |frame| - p.size;
      var warning := if p.value != remaining then Some(LengthMismatch(p.value, remaining)) else None;
      Ok(Unframed(decodeLenient(frame[p.size..]), warning))
  }

  /** The two stages in order: strict, and the fallback only when strict fails. */
  function Unframe(frame: seq<uint8>, utf8: Utf8): Result<Unframed, FrameError> {
    match TryStrictFrame(frame, utf8.decodeStrict)
    case Ok(text) => Ok(Unframed(text, None))
    case Err(_) => FallbackLenientFrame(frame, utf8.decodeLenient)
  }

  /** The frame is the varint of the payload length, and after it exactly the payload. */
  lemma FrameLayout(payload: seq<uint8>)
    requires |payload| < TWO_TO_THE_32
    ensures var k := |Frame(payload)| - |payload|;
      && k == |EncodeVarint32(|payload|)|
      && ParseVarint32(Frame(payload)) == Ok(Varint(|payload|, k))
      && Frame(payload)[k..] == payload
  {
    ParseEncodedVarint32(|payload|, payload);
  }

  /**
    The strict reader undoes `Frame`, also when bytes follow the frame: it returns the
    strict decode of the payload, or InvalidUtf8 when the payload is not valid text.
  */
  lemma StrictFrameRoundTrip(payload: seq<uint8>, trailing: seq<uint8>,
                             decodeStrict: seq<uint8> -> Option<string>)
    requires |payload| < TWO_TO_THE_32
    ensures TryStrictFrame(Frame(payload) + trailing, decodeStrict) ==
            match decodeStrict(payload)
            case Some(text) => Ok(text)
            case None => Err(InvalidUtf8)
  {
    var prefix := EncodeVarint32(|payload|);
    var frame := Frame(payload) + trailing;
    assert frame == prefix + (payload + trailing);
    ParseEncodedVarint32(|payload|, payload + trailing);
    assert frame[|prefix|..|prefix| + |payload|] == payload;
  }

  /** Text framed by the writer comes back unchanged and without a warning. */
  lemma UnframeRoundTrip(text: string, utf8: Utf8)
    requires utf8.RoundTrips()
    requires |utf8.encode(text)| < TWO_TO_THE_32
    ensures Unframe(Frame(utf8.encode(text)), utf8) == Ok(Unframed(text, None))
  {
    var payload := utf8.encode(text);
    StrictFrameRoundTrip(payload, [], utf8.decodeStrict);
    assert Frame(payload) + [] == Frame(payload);
  }

  /** Decoding a frame fails only when its prefix never ends; a bad length never aborts. */
  lemma UnframeFailsOnlyOnTruncatedPrefix(frame: seq<uint8>, utf8: Utf8)
    ensures Unframe(frame, utf8).Err? <==> forall i :: 0 <= i < |frame| ==> Continues(frame[i])
  {
    ParseVarint32Fails(frame);
  }

  /**
    A prefix that declares more bytes than the frame holds, one of the ways a frame from a
    non-conforming encoder fails the strict read, still decodes: leniently, all bytes after the prefix, with the mismatch reported.
  */
  lemma OverlongPrefixDecodesWithWarning(frame: seq<uint8>, utf8: Utf8)
    requires ParseVarint32(frame).Ok?
    requires ParseVarint32(frame).value.value > |frame| - ParseVarint32(frame).value.size
    ensures var p := ParseVarint32(frame).value;
      Unframe(frame, utf8) ==
        Ok(Unframed(utf8.decodeLenient(frame[p.size..]),
                    Some(LengthMismatch(p.value, |frame| - p.size))))
  {
  }

  /**
    When the strict stage accepts exactly the bytes that follow the prefix, the fallback
    would have produced the same text without a warning: the two stages agree there.
  */
  lemma StagesAgreeOnExactFrames(frame: seq<uint8>, utf8: Utf8)
    requires utf8.Lawful()
    requires TryStrictFrame(frame, utf8.decodeStrict).Ok?
    requires ParseVarint32(frame).value.value == |frame| - ParseVarint32(frame).value.size
    ensures FallbackLenientFrame(frame, utf8.decodeLenient) ==
            Ok(Unframed(TryStrictFrame(frame, utf8.decodeStrict).value, None))
  {
    var p := ParseVarint32(frame).value;
    assert frame[p.size..p.size + p.value] == frame[p.size..];
  }
}
