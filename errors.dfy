/** The daemon's error taxonomy: the protocol failure signals of a peer
    connection, the crate-wide `Error` enum, the conversions into it and the
    text each error displays. */
module Errors {
  import opened Types
  import Hex

  /** Failure signals of a peer connection. */
  datatype ProtocolError =
    | Disconnect        // the peer closed the connection
    | DisconnectByMe    // this side closed it
    | InvalidHandshake
    | MissingHandshake
    | HandshakeTimeout
  {
    /** The fixed `Display` text of each signal. */
    function Message(): (m: string)
      ensures |m| > 0
    {
      match this
      case Disconnect => "disconnect"
      case DisconnectByMe => "forced disconnect"
      case InvalidHandshake => "invalid handshake"
      case MissingHandshake => "missing handshake"
      case HandshakeTimeout => "handshake timeout"
    }

    /** `ProtocolError::into_err`: wrap a copy of the signal as an `Error`;
        the same value the `From<ProtocolError>` conversion produces. */
    function IntoErr(): (e: Error)
      ensures e == FromProtocolError(this)
      ensures e.ProtocolError? && e.protocol == this
    {
      Error.ProtocolError(this)
    }
  }

  /** Errors raised by code outside the core, kept opaque: only the text
      they display is modelled. */
  datatype IoError = IoError(message: string)
  datatype BincodeError = BincodeError(message: string)
  datatype JsonError = JsonError(message: string)
  datatype MailboxError = MailboxError(message: string)
  datatype Canceled = Canceled(message: string)

  datatype Error =
    | IO(io: IoError)
    | InvalidJsonFormat(json: JsonError)
    | InvalidBinFormat(bincode: BincodeError)
    | InvalidMetaVersion(detectedVersion: u32)
    | MetadataNotFound
    | ServiceFail(service: string)
    | Mailbox(mailbox: MailboxError)
    | RequestCanceled(canceled: Canceled)
    | ResourceNotFound(resource: u128)
    | InvalidBlockHash(blockHash: u128)
    | ProtocolError(protocol: ProtocolError)

  /** The `From` conversions into `Error`, one variant per source type. */
  function FromIo(e: IoError): (r: Error)
    ensures r.IO? && r.io == e
  {
    IO(e)
  }

  function FromBincode(e: BincodeError): (r: Error)
    ensures r.InvalidBinFormat? && r.bincode == e
  {
    InvalidBinFormat(e)
  }

  function FromJson(e: JsonError): (r: Error)
    ensures r.InvalidJsonFormat? && r.json == e
  {
    InvalidJsonFormat(e)
  }

  function FromMailbox(e: MailboxError): (r: Error)
    ensures r.Mailbox? && r.mailbox == e
  {
    Mailbox(e)
  }

  function FromCanceled(e: Canceled): (r: Error)
    ensures r.RequestCanceled? && r.canceled == e
  {
    RequestCanceled(e)
  }

  function FromProtocolError(e: ProtocolError): (r: Error)
    ensures r.ProtocolError? && r.protocol == e
  {
    Error.ProtocolError(e)
  }

  /** Each conversion is injective and no two conversions meet: the source
      type of the payload can be read off the variant. */
  lemma FromConversionsSeparate(io: IoError, b: BincodeError, j: JsonError, m: MailboxError,
                                c: Canceled, p: ProtocolError)
    ensures |{FromIo(io), FromBincode(b), FromJson(j), FromMailbox(m), FromCanceled(c), FromProtocolError(p)}| == 6
  {
    var s := {FromIo(io), FromBincode(b), FromJson(j), FromMailbox(m), FromCanceled(c)};
    assert |{FromIo(io), FromBincode(b)}| == 2;
    assert |{FromIo(io), FromBincode(b), FromJson(j)}| == 3;
    assert |{FromIo(io), FromBincode(b), FromJson(j), FromMailbox(m)}| == 4;
    assert |s| == 5;
    assert FromProtocolError(p) !in s;
  }

  /** The `Display` text of an error, as a server-error response carries it.
      Only the variants that forward a foreign error's own text can display
      nothing. */
  function Display(e: Error): (t: string)
    ensures !(e.IO? || e.Mailbox?) ==> |t| > 0
  {
    match e
    case IO(io) => io.message
    case InvalidJsonFormat(j) => "invalid format: " + j.message
    case InvalidBinFormat(b) => "invalid format: " + b.message
    case InvalidMetaVersion(v) => "invalid matadata version: " + Hex.Decimal(v)
    case MetadataNotFound => "matadata not found"
    case ServiceFail(s) => s + " not working"
    case Mailbox(m) => m.message
    case RequestCanceled(c) => "request canceled " + c.message
    case ResourceNotFound(h) => "resource " + Hex.Hex32(h) + " not found"
    case InvalidBlockHash(h) => "invalid block hash " + Hex.Hex32(h)
    case ProtocolError(p) => p.Message()
  }

  /** Both decoders' failures share the "invalid format: " text, so the
      displayed text tells which message failed to decode but not which
      decoder (JSON or bincode) rejected it. */
  lemma DecodeFailuresLookAlike(j: JsonError, b: BincodeError)
    ensures Display(InvalidJsonFormat(j)) == Display(InvalidBinFormat(b)) <==> j.message == b.message
  {
    var prefix := "invalid format: ";
    if Display(InvalidJsonFormat(j)) == Display(InvalidBinFormat(b)) {
      assert (prefix + j.message)[|prefix|..] == j.message;
      assert (prefix + b.message)[|prefix|..] == b.message;
    }
  }

  /** The five protocol signals display five different texts. */
  lemma ProtocolMessagesDistinct(a: ProtocolError, b: ProtocolError)
    ensures a.Message() == b.Message() <==> a == b
  {
  }

  /** A wrapped protocol signal displays its own text. */
  lemma IntoErrDisplay(p: ProtocolError)
    ensures Display(p.IntoErr()) == p.Message()
  {
  }

  /** "resource " + 32 hex digits + " not found": the hash is recovered from
      characters 9 to 41 of the text. */
  lemma ResourceNotFoundDisplay(h: u128)
    ensures var t := Display(ResourceNotFound(h));
      && |t| == 51
      && t[..9] == "resource "
      && t[41..] == " not found"
      && Hex.ParseU128Hex(t[9..41]) == Success(h)
  {
    var t := Display(ResourceNotFound(h));
    assert t[9..41] == Hex.Hex32(h);
    Hex.HexRoundTrip(h);
  }

  /** "invalid block hash " + 32 hex digits: the calculated hash is recovered
      from the last 32 characters. */
  lemma InvalidBlockHashDisplay(h: u128)
    ensures var t := Display(InvalidBlockHash(h));
      && |t| == 51
      && t[..19] == "invalid block hash "
      && Hex.ParseU128Hex(t[19..]) == Success(h)
  {
    var t := Display(InvalidBlockHash(h));
    assert t[19..] == Hex.Hex32(h);
    Hex.HexRoundTrip(h);
  }

  /** "invalid matadata version: " (sic) + the detected version in decimal. */
  lemma InvalidMetaVersionDisplay(v: u32)
    ensures var t := Display(InvalidMetaVersion(v));
      && |t| > 26
      && t[..26] == "invalid matadata version: "
      && (forall i :: 26 <= i < |t| ==> '0' <= t[i] <= '9')
      && Hex.DecimalValue(t[26..]) == v
  {
    var t := Display(InvalidMetaVersion(v));
    assert t[26..] == Hex.Decimal(v);
    Hex.DecimalRoundTrip(v);
  }
}
