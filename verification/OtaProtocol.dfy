/** Frame layout of the OTA unicast bootloader protocol: offsets, command ids, status bits. */
module OtaProtocol {
  import opened ByteUtilities

  // Command ids, the low four bits of the frame control byte.
  const CMD_IMAGE_SEGMENT: byte := 0x00
  const CMD_IMAGE_SEGMENT_RESPONSE: byte := 0x01
  const CMD_BOOTLOAD_REQUEST: byte := 0x02
  const CMD_BOOTLOAD_RESPONSE: byte := 0x03
  const CMD_HANDSHAKE: byte := 0x04
  const CMD_HANDSHAKE_RESPONSE: byte := 0x05
  const CMD_EXT_HANDSHAKE_RESPONSE: byte := 0x06

  // Response status values, bits four to six of the frame control byte.
  const RESP_COMPLETED: byte := 0
  const RESP_ONGOING: byte := 1
  const RESP_REFUSED: byte := 3
  const RESP_OUT_OF_SEQ: byte := 5

  /** The resume-support request flag, already shifted to its bit. */
  const RESUME_SUPPORT_FLAG: byte := 0x10

  const TAG_OFFSET := 1
  const WORD_OFFSET := 2
  const REQUEST_HEADER_LENGTH := 6
  const BOOTLOAD_RESP_HEADER_LENGTH := 3

  function CommandId(frame: seq<byte>): byte
    requires |frame| > 0
  {
    frame[0] % 0x10
  }

  function ResponseStatus(frame: seq<byte>): byte
    requires |frame| > 0
  {
    frame[0] / 0x10 % 8
  }

  /** The 32-bit word every long frame carries after the tag: image size, segment index or delay. */
  function WordField(frame: seq<byte>): u32
    requires |frame| >= 6
  {
    FetchInt32u(true, frame[WORD_OFFSET..])
  }

  // ---- What the server sends ----

  datatype Request =
    | Handshake(tag: byte, imageSize: u32)
    | ImageSegment(tag: byte, index: u32, data: seq<byte>)
    | BootloadRequest(tag: byte, delayMs: u32)

  function RequestHeader(command: byte, tag: byte, word: u32): (f: seq<byte>)
    requires command < 0x10
  {
    [command + RESUME_SUPPORT_FLAG as int, tag] + LowHigh32(word)
  }

  function EncodeRequest(r: Request): (f: seq<byte>) {
    match r
    case Handshake(tag, size) => RequestHeader(CMD_HANDSHAKE, tag, size)
    case ImageSegment(tag, index, data) => RequestHeader(CMD_IMAGE_SEGMENT, tag, index) + data
    case BootloadRequest(tag, delay) => RequestHeader(CMD_BOOTLOAD_REQUEST, tag, delay)
  }

  /** How a receiver that follows the same layout reads a request. */
  function ParseRequest(f: seq<byte>): Option<Request> {
    if |f| < REQUEST_HEADER_LENGTH then None
    else if CommandId(f) == CMD_HANDSHAKE then Some(Handshake(f[TAG_OFFSET], WordField(f)))
    else if CommandId(f) == CMD_IMAGE_SEGMENT then
      Some(ImageSegment(f[TAG_OFFSET], WordField(f), f[REQUEST_HEADER_LENGTH..]))
    else if CommandId(f) == CMD_BOOTLOAD_REQUEST then Some(BootloadRequest(f[TAG_OFFSET], WordField(f)))
    else None
  }

  lemma RequestRoundTrip(r: Request)
    ensures ParseRequest(EncodeRequest(r)) == Some(r)
  {
    var f := EncodeRequest(r);
    var word := match r case Handshake(_, size) => size case ImageSegment(_, i, _) => i case BootloadRequest(_, d) => d;
    assert f[2..6] == Stored32(true, word);
    assert FetchInt32u(true, f[2..]) == FetchInt32u(true, f[2..6]);
    StoreFetch32(true, word, f[2..6]);
  }

  // ---- What a target answers ----

  datatype Response =
    | HandshakeResponse(tag: byte, status: byte, appStatus: byte)
    | ExtHandshakeResponse(tag: byte, status: byte, start: u32)
    | SegmentResponse(tag: byte, status: byte, index: u32, appStatus: byte)
    | BootloadResponse(tag: byte, status: byte, appStatus: byte)

  predicate ValidResponse(r: Response) {
    r.status < 8
  }

  function EncodeResponse(r: Response): (f: seq<byte>)
    requires ValidResponse(r)
  {
    var control := (command: byte) requires command < 0x10 => (command as int + 0x10 * r.status) as byte;
    match r
    case HandshakeResponse(tag, _, app) => [control(CMD_HANDSHAKE_RESPONSE), tag, app]
    case ExtHandshakeResponse(tag, _, start) => [control(CMD_EXT_HANDSHAKE_RESPONSE), tag] + LowHigh32(start)
    case SegmentResponse(tag, _, index, app) => [control(CMD_IMAGE_SEGMENT_RESPONSE), tag] + LowHigh32(index) + [app]
    case BootloadResponse(tag, _, app) => [control(CMD_BOOTLOAD_RESPONSE), tag, app]
  }

  function ResponseCommand(r: Response): byte {
    match r
    case HandshakeResponse(_, _, _) => CMD_HANDSHAKE_RESPONSE
    case ExtHandshakeResponse(_, _, _) => CMD_EXT_HANDSHAKE_RESPONSE
    case SegmentResponse(_, _, _, _) => CMD_IMAGE_SEGMENT_RESPONSE
    case BootloadResponse(_, _, _) => CMD_BOOTLOAD_RESPONSE
  }

  /**
   * A response that arrives at the front of a receive buffer, whatever bytes follow it, is read
   * back field by field through the server's offsets and masks.
   */
  lemma ResponseRoundTrip(r: Response, buffer: seq<byte>)
    requires ValidResponse(r) && |buffer| >= 7 && EncodeResponse(r) <= buffer
    ensures CommandId(buffer) == ResponseCommand(r) && ResponseStatus(buffer) == r.status
    ensures buffer[TAG_OFFSET] == r.tag
    ensures r.ExtHandshakeResponse? ==> WordField(buffer) == r.start
    ensures r.SegmentResponse? ==> WordField(buffer) == r.index
  {
    var f := EncodeResponse(r);
    assert buffer[0] == f[0] && buffer[1] == f[1];
    assert buffer[0] == ResponseCommand(r) as int + 0x10 * r.status;
    if r.ExtHandshakeResponse? || r.SegmentResponse? {
      var word := if r.ExtHandshakeResponse? then r.start else r.index;
      assert f[2..6] == Stored32(true, word);
      assert buffer[2..6] == f[2..6];
      assert FetchInt32u(true, buffer[2..]) == FetchInt32u(true, buffer[2..6]);
      StoreFetch32(true, word, f[2..6]);
    }
  }
}
