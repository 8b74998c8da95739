/**
 * The OTA unicast bootloader server in the source's own form: static variables as fields, one
 * method per function, and the event loop. Every entry point refines a transition of OtaServerModel.
 */
module OtaServer {
  import opened ByteUtilities
  import opened EmberTypes
  import opened OtaProtocol
  import opened OtaServerModel

  const STATE_IDLE: byte := 0x00
  const STATE_SEGMENT_UNICAST_INTERVAL: byte := 0x01
  const STATE_SEGMENT_UNICAST_PENDING: byte := 0x02
  const STATE_SEGMENT_UNICAST_WAITING_RESPONSE: byte := 0x03
  const STATE_BOOTLOAD_REQUEST_UNICAST_INTERVAL: byte := 0x05
  const STATE_BOOTLOAD_REQUEST_UNICAST_PENDING: byte := 0x06
  const STATE_BOOTLOAD_REQUEST_WAITING_RESPONSE: byte := 0x07
  const STATE_HANDSHAKE_INTERVAL: byte := 0x09
  const STATE_HANDSHAKE_PENDING: byte := 0x0A
  const STATE_HANDSHAKE_WAITING_RESPONSE: byte := 0x0B

  const MAX_APPLICATION_PAYLOAD_LENGTH := 102

  /** The numbers the server actually uses; 0x04 and 0x08 are declared but never entered. */
  predicate KnownState(state: byte) {
    state <= STATE_HANDSHAKE_WAITING_RESPONSE && state != 4 && state != 8
  }

  function ModeOf(state: byte): Mode {
    if state == STATE_IDLE then Idle
    else
      var phase := if state < 4 then SegmentPhase else if state < 8 then BootloadPhase else HandshakePhase;
      Running(phase, if state % 4 == 1 then Interval else if state % 4 == 2 then Pending else Waiting)
  }

  function SendStatusOf(status: byte): SendStatus {
    if status == EMBER_SUCCESS then Delivered
    else if status == EMBER_MAC_NO_ACK_RECEIVED then NoAck
    else StackFailure
  }

  /** Success, no acknowledgement, and anything else. */
  lemma SendStatuses(status: byte)
    ensures SendStatusOf(0x00) == Delivered && SendStatusOf(0x40) == NoAck
    ensures status !in {0x00, 0x40} ==> SendStatusOf(status) == StackFailure
  {
  }

  class OtaServer {
    var internalState: byte
    var targetId: u16
    var sentSegment: u32
    var stackErrorsCount: byte
    var currentTargetErrorsCount: byte
    var nextSegment: u32
    var currentImageSizeOrBootloadTimeMs: u32
    var currentImageTagOrServerStatus: byte
    var otaEventIsActive: bool
    /** Set where the segment copy would leave the image; nothing is claimed to run after that. */
    var faulted: bool
    /** Every frame handed to the stack and every completion callback, in order. */
    ghost var log: seq<Output>

    ghost function Model(): Server
      reads this
    {
      Server(if faulted then Faulted else ModeOf(internalState), targetId, currentImageSizeOrBootloadTimeMs,
             currentImageTagOrServerStatus, nextSegment, sentSegment, stackErrorsCount, currentTargetErrorsCount,
             otaEventIsActive)
    }

    ghost predicate Valid()
      reads this
    {
      KnownState(internalState) && Sane(Model())
    }

    /** The transition taken is `o`: the new state is its server and its outputs were appended. */
    twostate predicate Took(o: Outcome)
      reads this
    {
      Valid() && Model() == o.server && log == old(log) + o.outputs
    }

    constructor ()
      ensures Valid() && Model() == PowerOn && log == []
    {
      internalState := STATE_IDLE;
      targetId := NULL_NODE_ID;
      sentSegment, nextSegment, currentImageSizeOrBootloadTimeMs := 0, 0, 0;
      stackErrorsCount, currentTargetErrorsCount, currentImageTagOrServerStatus := 0, 0, 0;
      otaEventIsActive, faulted := false, false;
      log := [];
    }

    // ---- Public calls ----

    method InitiateImageDistribution(target: u16, imageSize: u32, imageTag: byte) returns (status: Status)
      requires Valid() && !faulted
      modifies this
      ensures Took(Step(old(Model()), StartDistribution(target, imageSize, imageTag)))
      ensures status == StartReply(old(Model()), AcceptsDistribution(old(Model()), target, imageSize))
      ensures status == Busy <==> old(Model().mode) != Idle
      ensures status == Success <==> old(Model().mode) == Idle && target != 0xFFFF && 0 < imageSize <= 0xFFFE * 96
      ensures status == Success <==> old(Model().mode) == Idle && Model().mode.Running?
      ensures status in {Busy, Success, InvalidCall}
    {
      if internalState != STATE_IDLE {
        return Busy;
      }
      if NULL_NODE_ID == target || imageSize == 0 || imageSize > MAXIMUM_IMAGE_SIZE {
        return InvalidCall;
      }
      currentImageSizeOrBootloadTimeMs := imageSize;
      currentImageTagOrServerStatus := imageTag;
      targetId := target;
      nextSegment := 0;
      stackErrorsCount := 0;
      currentTargetErrorsCount := 0;
      internalState := STATE_HANDSHAKE_INTERVAL;
      ScheduleNextEvent();
      return Success;
    }

    method InitiateRequestTargetBootload(bootloadDelayMs: u32, imageTag: byte, target: u16, now: u32)
      returns (status: Status)
      requires Valid() && !faulted
      modifies this
      ensures Took(Step(old(Model()), StartBootload(bootloadDelayMs, imageTag, target, now)))
      ensures status == StartReply(old(Model()), AcceptsBootload(old(Model()), target))
      ensures status == Busy <==> old(Model().mode) != Idle
      ensures status == Success <==> old(Model().mode) == Idle && target != 0xFFFF
      ensures status == Success <==> old(Model().mode) == Idle && Model().mode.Running?
      ensures status in {Busy, Success, InvalidCall}
    {
      if internalState != STATE_IDLE {
        return Busy;
      }
      if target == NULL_NODE_ID {
        return InvalidCall;
      }
      targetId := target;
      nextSegment := 0;
      stackErrorsCount := 0;
      currentTargetErrorsCount := 0;
      currentImageTagOrServerStatus := imageTag;
      currentImageSizeOrBootloadTimeMs := (now as int + bootloadDelayMs) % WRAP;
      internalState := STATE_BOOTLOAD_REQUEST_UNICAST_INTERVAL;
      ScheduleNextEvent();
      return Success;
    }

    method AbortCurrentProcess() returns (status: Status)
      requires Valid() && !faulted
      modifies this
      ensures Took(Step(old(Model()), AbortCall))
      ensures status == if Abortable(old(Model())) then Success else InvalidCall
    {
      if STATE_SEGMENT_UNICAST_INTERVAL <= internalState <= STATE_SEGMENT_UNICAST_WAITING_RESPONSE {
        ImageDistributionProcessFinished(Aborted);
        return Success;
      }
      if STATE_BOOTLOAD_REQUEST_UNICAST_INTERVAL <= internalState <= STATE_BOOTLOAD_REQUEST_WAITING_RESPONSE {
        BootloadRequestProcessFinished(Aborted);
        return Success;
      }
      return InvalidCall;
    }

    // ---- Stack callbacks ----

    method IncomingMessageCallback(endpoint: byte, options: byte, source: u16, payload: Buffer, length: u16)
      requires Valid() && !faulted
      modifies this
      ensures Took(Step(old(Model()), IncomingMessage(endpoint, options % 2 == 1, source, payload, length)))
    {
      if endpoint != SERVER_ENDPOINT {
        return;
      }
      if options % 2 != 1 {
        return;
      }
      if source != targetId {
        return;
      }
      match CommandId(payload) {
        case 5 =>
          if internalState == STATE_HANDSHAKE_WAITING_RESPONSE && currentImageTagOrServerStatus == payload[TAG_OFFSET] {
            HandleHandshakeResponse(payload, 0);
          }
        case 6 =>
          if internalState == STATE_HANDSHAKE_WAITING_RESPONSE && currentImageTagOrServerStatus == payload[TAG_OFFSET] {
            HandleHandshakeResponse(payload, FetchInt32u(true, payload[WORD_OFFSET..]));
          }
        case 1 =>
          if (internalState == STATE_SEGMENT_UNICAST_PENDING || internalState == STATE_SEGMENT_UNICAST_WAITING_RESPONSE)
             && currentImageTagOrServerStatus == payload[TAG_OFFSET] {
            internalState := STATE_SEGMENT_UNICAST_WAITING_RESPONSE;
            HandleSegmentResponse(payload);
          }
        case 3 =>
          if internalState == STATE_BOOTLOAD_REQUEST_WAITING_RESPONSE && length == BOOTLOAD_RESP_HEADER_LENGTH {
            ScheduleBootloadRequestProcessNextTask(true, ResponseStatus(payload));
          }
        case _ =>
      }
    }

    method MessageSentCallback(endpoint: byte, status: byte, payload: seq<byte>)
      requires Valid() && !faulted
      requires |payload| > 0
      modifies this
      ensures Took(Step(old(Model()), MessageSent(endpoint, CommandId(payload), SendStatusOf(status))))
    {
      if endpoint != SERVER_ENDPOINT {
        return;
      }
      match CommandId(payload) {
        case 4 =>
          if internalState == STATE_HANDSHAKE_PENDING {
            HandshakeSent(status);
          }
        case 0 =>
          if internalState == STATE_SEGMENT_UNICAST_PENDING {
            SegmentSent(status);
          }
        case 2 =>
          if internalState == STATE_BOOTLOAD_REQUEST_UNICAST_PENDING {
            BootloadRequestSent(status);
          }
        case _ =>
      }
    }

    method HandshakeSent(status: byte)
      requires Valid() && !faulted && internalState == STATE_HANDSHAKE_PENDING
      modifies this
      ensures Took(OnSent(old(Model()), CMD_HANDSHAKE, SendStatusOf(status)))
    {
      if status == EMBER_SUCCESS {
        stackErrorsCount := 0;
        internalState := STATE_HANDSHAKE_WAITING_RESPONSE;
        ScheduleNextEvent();
      } else {
        CountSendFailure(status);
        internalState := STATE_HANDSHAKE_INTERVAL;
        ScheduleImageDistributionProcessNextTask(false);
      }
    }

    method SegmentSent(status: byte)
      requires Valid() && !faulted && internalState == STATE_SEGMENT_UNICAST_PENDING
      modifies this
      ensures Took(OnSent(old(Model()), CMD_IMAGE_SEGMENT, SendStatusOf(status)))
    {
      if status == EMBER_SUCCESS {
        stackErrorsCount := 0;
        internalState := STATE_SEGMENT_UNICAST_WAITING_RESPONSE;
        ScheduleNextEvent();
      } else {
        CountSendFailure(status);
        internalState := STATE_SEGMENT_UNICAST_INTERVAL;
        ScheduleImageDistributionProcessNextTask(false);
      }
    }

    method BootloadRequestSent(status: byte)
      requires Valid() && !faulted && internalState == STATE_BOOTLOAD_REQUEST_UNICAST_PENDING
      modifies this
      ensures Took(OnSent(old(Model()), CMD_BOOTLOAD_REQUEST, SendStatusOf(status)))
    {
      if status == EMBER_SUCCESS {
        internalState := STATE_BOOTLOAD_REQUEST_WAITING_RESPONSE;
        ScheduleNextEvent();
        stackErrorsCount := 0;
      } else {
        CountSendFailure(status);
        ScheduleBootloadRequestProcessNextTask(false, 0xFF);
      }
    }

    /** The two increments every failure branch of the sent callback repeats. */
    method CountSendFailure(status: byte)
      requires stackErrorsCount < MAX_STACK_ERRORS && currentTargetErrorsCount < MAX_UNICAST_ERRORS
      modifies this`stackErrorsCount, this`currentTargetErrorsCount
      ensures status == EMBER_MAC_NO_ACK_RECEIVED ==>
                currentTargetErrorsCount == old(currentTargetErrorsCount) + 1 && stackErrorsCount == 0
      ensures status != EMBER_MAC_NO_ACK_RECEIVED ==>
                currentTargetErrorsCount == old(currentTargetErrorsCount) &&
                stackErrorsCount == old(stackErrorsCount) + 1
    {
      if status == EMBER_MAC_NO_ACK_RECEIVED {
        currentTargetErrorsCount := currentTargetErrorsCount + 1;
        stackErrorsCount := 0;
      } else {
        stackErrorsCount := stackErrorsCount + 1;
      }
    }

    // ---- Timer event ----

    /**
     * The handler for one expiry. `submit` is whether the stack would accept a message now, `now`
     * the clock, `image` what the application can copy segments from.
     */
    method EventHandler(submit: bool, now: u32, image: Option<seq<byte>>)
      requires Valid() && !faulted && otaEventIsActive
      modifies this
      ensures Took(OnTimer(old(Model()), submit, now, image))
    {
      otaEventIsActive := false;
      if internalState == STATE_HANDSHAKE_INTERVAL {
        UnicastHandshake(submit);
      } else if internalState == STATE_SEGMENT_UNICAST_INTERVAL {
        UnicastNextSegment(submit, image);
      } else if internalState == STATE_HANDSHAKE_WAITING_RESPONSE
                || internalState == STATE_SEGMENT_UNICAST_WAITING_RESPONSE {
        currentTargetErrorsCount := currentTargetErrorsCount + 1;
        ScheduleImageDistributionProcessNextTask(false);
      } else if internalState == STATE_BOOTLOAD_REQUEST_UNICAST_INTERVAL {
        RequestTargetForBootload(submit, now);
      } else if internalState == STATE_BOOTLOAD_REQUEST_WAITING_RESPONSE {
        currentTargetErrorsCount := currentTargetErrorsCount + 1;
        ScheduleBootloadRequestProcessNextTask(false, 0xFF);
      }
    }

    // ---- Image distribution ----

    method HandleSegmentResponse(payload: Buffer)
      requires Valid() && !faulted && internalState == STATE_SEGMENT_UNICAST_WAITING_RESPONSE
      modifies this
      ensures Took(OnSegmentResponse(old(Model()), ResponseStatus(payload), WordField(payload)))
    {
      if ResponseStatus(payload) == RESP_OUT_OF_SEQ {
        ImageDistributionProcessFinished(Failed);
      } else if ResponseStatus(payload) == RESP_REFUSED {
        ImageDistributionProcessFinished(Refused);
      } else if ResponseStatus(payload) == RESP_ONGOING {
        var respSegment := FetchInt32u(true, payload[WORD_OFFSET..]);
        if respSegment == sentSegment {
          currentTargetErrorsCount := 0;
          otaEventIsActive := false;
          ScheduleImageDistributionProcessNextTask(true);
        } else {
          ImageDistributionProcessFinished(Failed);
        }
      } else if ResponseStatus(payload) == RESP_COMPLETED {
        ImageDistributionProcessFinished(Success);
      }
    }

    method HandleHandshakeResponse(payload: Buffer, startSegment: u32)
      requires Valid() && !faulted && internalState == STATE_HANDSHAKE_WAITING_RESPONSE
      modifies this
      ensures Took(OnHandshakeResponse(old(Model()), ResponseStatus(payload), startSegment))
    {
      if ResponseStatus(payload) == RESP_REFUSED {
        ImageDistributionProcessFinished(Refused);
      } else if ResponseStatus(payload) == RESP_ONGOING {
        nextSegment := startSegment;
        currentTargetErrorsCount := 0;
        internalState := STATE_SEGMENT_UNICAST_INTERVAL;
        ScheduleImageDistributionProcessNextTask(true);
      } else {
        ImageDistributionProcessFinished(Failed);
      }
    }

    method UnicastHandshake(submit: bool)
      requires Valid() && !faulted && internalState == STATE_HANDSHAKE_INTERVAL
      modifies this
      ensures Took(Transmit(old(Model()), Handshake(old(Model()).tag, old(Model()).size), submit))
    {
      var message := new byte[REQUEST_HEADER_LENGTH];
      FillHeader(message, CMD_HANDSHAKE, currentImageSizeOrBootloadTimeMs);
      ghost var request := Handshake(currentImageTagOrServerStatus, currentImageSizeOrBootloadTimeMs);
      assert message[..] == EncodeRequest(request);
      log := log + [Submitted(targetId, message[..], submit)];
      if submit {
        internalState := STATE_HANDSHAKE_PENDING;
      } else {
        stackErrorsCount := stackErrorsCount + 1;
        ScheduleImageDistributionProcessNextTask(false);
      }
    }

    method UnicastNextSegment(submit: bool, image: Option<seq<byte>>)
      requires Valid() && !faulted && internalState == STATE_SEGMENT_UNICAST_INTERVAL
      modifies this
      ensures Took(TransmitSegment(old(Model()), submit, image))
    {
      var startIndex: u32 := nextSegment * MAX_SEGMENT_PAYLOAD_LENGTH % WRAP;
      var endIndex: u32 := (startIndex as int + MAX_SEGMENT_PAYLOAD_LENGTH - 1) % WRAP;
      if endIndex >= currentImageSizeOrBootloadTimeMs {
        endIndex := currentImageSizeOrBootloadTimeMs - 1;
      }
      assert startIndex == WindowStart(nextSegment);
      assert endIndex == WindowEnd(nextSegment, currentImageSizeOrBootloadTimeMs);
      if image.Some? && !(startIndex == currentImageSizeOrBootloadTimeMs || startIndex <= endIndex < |image.value|) {
        faulted := true;
        return;
      }
      if startIndex <= endIndex {
        WindowAtMostOneSegment(nextSegment, currentImageSizeOrBootloadTimeMs);
      }
      var message := new byte[MAX_APPLICATION_PAYLOAD_LENGTH];
      ghost var before := message[..];
      var ok := GetImageSegment(image, startIndex, endIndex, message, REQUEST_HEADER_LENGTH);
      if !ok {
        ImageDistributionProcessFinished(DataUnderflow);
      } else {
        SendSegment(submit, Slice(image.value, startIndex, endIndex), message, before);
      }
    }

    /** What lies from one index to another, both included: nothing if the first is one past the second. */
    static function Slice(image: seq<byte>, startIndex: u32, endIndex: u32): (data: seq<byte>)
      requires startIndex <= endIndex as int + 1 && (startIndex <= endIndex ==> endIndex < |image|)
      ensures |data| == endIndex as int + 1 - startIndex
    {
      if startIndex <= endIndex then image[startIndex..endIndex + 1] else []
    }

    /** The rest of unicastNextSegment: the payload stands in the message, behind room for the header. */
    method SendSegment(submit: bool, data: seq<byte>, message: array<byte>, ghost before: seq<byte>)
      requires Valid() && !faulted && internalState == STATE_SEGMENT_UNICAST_INTERVAL
      requires |data| <= MAX_SEGMENT_PAYLOAD_LENGTH && |before| == message.Length == MAX_APPLICATION_PAYLOAD_LENGTH
      requires message[..] == Spliced(before, REQUEST_HEADER_LENGTH, data)
      modifies this, message
      ensures Took(Transmit(old(Model()), ImageSegment(old(Model()).tag, old(Model()).next, data), submit))
    {
      BuildSegment(message, data, before);
      log := log + [Submitted(targetId, message[..REQUEST_HEADER_LENGTH + |data|], submit)];
      if submit {
        internalState := STATE_SEGMENT_UNICAST_PENDING;
        sentSegment := nextSegment;
      } else {
        stackErrorsCount := stackErrorsCount + 1;
        ScheduleImageDistributionProcessNextTask(false);
      }
    }

    /** The header and the payload are written side by side, payload first. */
    static lemma SideBySide(before: seq<byte>, header: seq<byte>, payload: seq<byte>)
      requires |header| + |payload| <= |before|
      ensures Spliced(Spliced(before, |header|, payload), 0, header)[..|header| + |payload|] == header + payload
    {
    }

    method BuildSegment(message: array<byte>, ghost data: seq<byte>, ghost before: seq<byte>)
      requires |data| <= MAX_SEGMENT_PAYLOAD_LENGTH && |before| == message.Length == MAX_APPLICATION_PAYLOAD_LENGTH
      requires message[..] == Spliced(before, REQUEST_HEADER_LENGTH, data)
      modifies message
      ensures message[..REQUEST_HEADER_LENGTH + |data|]
           == EncodeRequest(ImageSegment(currentImageTagOrServerStatus, nextSegment, data))
    {
      FillHeader(message, CMD_IMAGE_SEGMENT, nextSegment);
      SideBySide(before, RequestHeader(CMD_IMAGE_SEGMENT, currentImageTagOrServerStatus, nextSegment), data);
    }

    /**
     * The sample application's segment source: a copy out of the loaded image, of nothing if the first
     * index is one past the last. It fails without a destination or an image; `at` is where in its
     * array the destination lies.
     */
    static method GetImageSegment(gblImage: Option<seq<byte>>, startIndex: u32, endIndex: u32,
                                  imageSegment: array?<byte>, at: nat)
      returns (ok: bool)
      requires imageSegment != null && gblImage.Some? ==>
                 startIndex <= endIndex as int + 1 && (startIndex <= endIndex ==> endIndex < |gblImage.value|) &&
                 at + (endIndex as int + 1 - startIndex) <= imageSegment.Length
      modifies imageSegment
      ensures ok <==> imageSegment != null && gblImage.Some?
      ensures ok ==> imageSegment[..] == Spliced(old(imageSegment[..]), at, Slice(gblImage.value, startIndex, endIndex))
      ensures !ok && imageSegment != null ==> imageSegment[..] == old(imageSegment[..])
    {
      if imageSegment == null {
        return false;
      }
      if gblImage.None? {
        return false;
      }
      CopyInto(imageSegment, at, Slice(gblImage.value, startIndex, endIndex));
      return true;
    }

    /** Frame control, tag and the 32-bit word at the front of every request. */
    method FillHeader(message: array<byte>, command: byte, word: u32)
      requires command < 0x10 && message.Length >= REQUEST_HEADER_LENGTH
      modifies message
      ensures message[..] == Spliced(old(message[..]), 0, RequestHeader(command, currentImageTagOrServerStatus, word))
    {
      message[0] := command + RESUME_SUPPORT_FLAG as int;
      message[TAG_OFFSET] := currentImageTagOrServerStatus;
      StoreInt32u(true, message, WORD_OFFSET, word);
    }

    method ScheduleImageDistributionProcessNextTask(newSegment: bool)
      requires KnownState(internalState) && !faulted
      requires 0 < currentImageSizeOrBootloadTimeMs <= MAXIMUM_IMAGE_SIZE
      requires stackErrorsCount <= MAX_STACK_ERRORS && currentTargetErrorsCount <= MAX_UNICAST_ERRORS
      requires internalState in {STATE_HANDSHAKE_INTERVAL, STATE_SEGMENT_UNICAST_INTERVAL,
                                 STATE_SEGMENT_UNICAST_WAITING_RESPONSE, STATE_HANDSHAKE_WAITING_RESPONSE}
      requires ModeOf(internalState).stage == Waiting ==> stackErrorsCount < MAX_STACK_ERRORS
      requires newSegment && internalState == STATE_SEGMENT_UNICAST_WAITING_RESPONSE ==> currentTargetErrorsCount == 0
      modifies this
      ensures !(newSegment && old(internalState) == STATE_SEGMENT_UNICAST_WAITING_RESPONSE) ==>
              Took(Retry(old(Model())))
      ensures newSegment && old(internalState) == STATE_SEGMENT_UNICAST_WAITING_RESPONSE ==>
                Took(if old(nextSegment) < TotalSegments(old(currentImageSizeOrBootloadTimeMs))
                     then Retry(old(Model()).(next := old(nextSegment) + 1))
                     else Outcome(old(Model()).(next := 0, stackErrors := 0, targetErrors := 0), []))
    {
      match internalState {
        case 9 | 1 =>
          if stackErrorsCount >= MAX_STACK_ERRORS {
            ImageDistributionProcessFinished(StackError);
            return;
          }
          if currentTargetErrorsCount >= MAX_UNICAST_ERRORS {
            ImageDistributionProcessFinished(Unreachable);
            return;
          }
          ScheduleNextEvent();
        case 3 =>
          if newSegment {
            if nextSegment < GetTotalSegmentsCount() {
              nextSegment := nextSegment + 1;
            } else {
              nextSegment := 0;
              stackErrorsCount := 0;
              currentTargetErrorsCount := 0;
              return;
            }
          }
          internalState := STATE_SEGMENT_UNICAST_INTERVAL;
          if currentTargetErrorsCount >= MAX_UNICAST_ERRORS {
            ImageDistributionProcessFinished(Unreachable);
          } else {
            ScheduleNextEvent();
          }
        case 11 =>
          if currentTargetErrorsCount >= MAX_UNICAST_ERRORS {
            ImageDistributionProcessFinished(Unreachable);
          } else {
            internalState := STATE_HANDSHAKE_INTERVAL;
            ScheduleNextEvent();
          }
        case _ =>
          assert false;
      }
    }

    method ImageDistributionProcessFinished(status: Status)
      requires KnownState(internalState) && !faulted
      requires ModeOf(internalState).Running? && ModeOf(internalState).phase != BootloadPhase
      modifies this
      ensures Took(Finish(old(Model()), status))
    {
      otaEventIsActive := false;
      internalState := STATE_IDLE;
      log := log + [Completed(Distribution, status)];
    }

    function GetTotalSegmentsCount(): u32
      reads this
    {
      var totalSegments := currentImageSizeOrBootloadTimeMs / MAX_SEGMENT_PAYLOAD_LENGTH;
      if currentImageSizeOrBootloadTimeMs % MAX_SEGMENT_PAYLOAD_LENGTH > 0 then totalSegments + 1 else totalSegments
    }

    // ---- Bootload request ----

    method RequestTargetForBootload(submit: bool, nowMs: u32)
      requires Valid() && !faulted && internalState == STATE_BOOTLOAD_REQUEST_UNICAST_INTERVAL
      modifies this
      ensures Took(Transmit(old(Model()), BootloadRequest(old(Model()).tag, RemainingDelay(nowMs, old(Model()).size)),
                            submit))
    {
      var message := new byte[REQUEST_HEADER_LENGTH];
      var delayMs: u32;
      if Reached(nowMs, currentImageSizeOrBootloadTimeMs) {
        delayMs := 0;
      } else {
        delayMs := Elapsed(nowMs, currentImageSizeOrBootloadTimeMs);
      }
      FillHeader(message, CMD_BOOTLOAD_REQUEST, delayMs);
      assert message[..] == EncodeRequest(BootloadRequest(currentImageTagOrServerStatus, delayMs));
      log := log + [Submitted(targetId, message[..], submit)];
      if submit {
        internalState := STATE_BOOTLOAD_REQUEST_UNICAST_PENDING;
      } else {
        stackErrorsCount := stackErrorsCount + 1;
        ScheduleBootloadRequestProcessNextTask(false, 0xFF);
      }
    }

    method ScheduleBootloadRequestProcessNextTask(targetResponded: bool, targetResponseStatus: byte)
      requires KnownState(internalState) && !faulted
      requires ModeOf(internalState).Running? && ModeOf(internalState).phase == BootloadPhase
      requires stackErrorsCount <= MAX_STACK_ERRORS && currentTargetErrorsCount <= MAX_UNICAST_ERRORS
      requires targetResponded ==> stackErrorsCount < MAX_STACK_ERRORS
      modifies this
      ensures targetResponded ==> Took(OnBootloadResponse(old(Model()), targetResponseStatus))
      ensures !targetResponded ==> Took(Retry(old(Model())))
    {
      assert STATE_BOOTLOAD_REQUEST_UNICAST_INTERVAL <= internalState <= STATE_BOOTLOAD_REQUEST_WAITING_RESPONSE;
      if stackErrorsCount >= MAX_STACK_ERRORS {
        BootloadRequestProcessFinished(StackError);
        return;
      }
      if targetResponded {
        if targetResponseStatus == RESP_COMPLETED {
          BootloadRequestProcessFinished(Success);
        } else if targetResponseStatus == RESP_REFUSED {
          BootloadRequestProcessFinished(Refused);
        } else {
          BootloadRequestProcessFinished(Failed);
        }
      } else {
        // The source repeats the stack error test here; after the first one it cannot succeed.
        if currentTargetErrorsCount >= MAX_UNICAST_ERRORS {
          BootloadRequestProcessFinished(Unreachable);
          return;
        }
        internalState := STATE_BOOTLOAD_REQUEST_UNICAST_INTERVAL;
        ScheduleNextEvent();
      }
    }

    method BootloadRequestProcessFinished(status: Status)
      requires KnownState(internalState) && !faulted
      requires ModeOf(internalState).Running? && ModeOf(internalState).phase == BootloadPhase
      modifies this
      ensures Took(Finish(old(Model()), status))
    {
      otaEventIsActive := false;
      internalState := STATE_IDLE;
      log := log + [Completed(Bootload, status)];
    }

    // ---- Event loop ----

    method ScheduleNextEvent()
      modifies this`otaEventIsActive
      ensures otaEventIsActive
    {
      otaEventIsActive := true;
    }

    /**
     * The inner loop of the process thread: run the handler for as long as the event is active,
     * with one submission result, clock reading and image per call. Nine calls always suffice.
     */
    method RunPendingEvents(submit: nat -> bool, clock: nat -> u32, image: nat -> Option<seq<byte>>)
      returns (calls: nat)
      requires Valid() && !faulted && otaEventIsActive
      modifies this
      ensures Took(Run(old(Model()), Expiries(submit, clock, image, calls)))
      ensures 1 <= calls <= 9 && !otaEventIsActive
      ensures Settled(Model())
    {
      calls := 0;
      ghost var start := Model();
      while otaEventIsActive && !faulted
        invariant Valid() && Reflects(Run(start, Expiries(submit, clock, image, calls)), old(log))
        invariant calls + HandlerBudget(Model()) <= 9
        invariant faulted ==> !otaEventIsActive
        invariant if otaEventIsActive then calls >= 0 else calls > 0 && Settled(Model())
        decreases HandlerBudget(Model())
      {
        Expire(submit, clock, image, calls, start, old(log));
        calls := calls + 1;
      }
    }

    /** This state and log are what outcome `o` leaves, on top of the log `base`. */
    ghost predicate Reflects(o: Outcome, base: seq<Output>)
      reads this
    {
      Model() == o.server && log == base + o.outputs
    }

    /** One handler call of the loop: it extends the run by one expiry and spends budget. */
    method Expire(submit: nat -> bool, clock: nat -> u32, image: nat -> Option<seq<byte>>, n: nat,
                  ghost start: Server, ghost base: seq<Output>)
      requires Valid() && !faulted && otaEventIsActive && Sane(start)
      requires Reflects(Run(start, Expiries(submit, clock, image, n)), base)
      modifies this
      ensures Valid() && Reflects(Run(start, Expiries(submit, clock, image, n + 1)), base)
      ensures HandlerBudget(Model()) < old(HandlerBudget(Model())) <= 9
      ensures !otaEventIsActive ==> Settled(Model())
      ensures faulted ==> !otaEventIsActive
    {
      ghost var before, first := Run(start, Expiries(submit, clock, image, n)), Model();
      OneMoreExpiry(start, submit, clock, image, n);
      HandlerCallSpendsBudget(first, submit(n), clock(n), image(n));
      EventHandler(submit(n), clock(n), image(n));
      ghost var last := OnTimer(first, submit(n), clock(n), image(n));
      Regroup(base, before.outputs, last.outputs);
    }
  }

  lemma OneMoreExpiry(s: Server, submit: nat -> bool, clock: nat -> u32, image: nat -> Option<seq<byte>>, n: nat)
    requires Sane(s)
    ensures Run(s, Expiries(submit, clock, image, n + 1)) ==
            var before := Run(s, Expiries(submit, clock, image, n));
            var last := Step(before.server, TimerExpired(submit(n), clock(n), image(n)));
            Outcome(last.server, before.outputs + last.outputs)
  {
    assert Expiries(submit, clock, image, n + 1)
        == Expiries(submit, clock, image, n) + [TimerExpired(submit(n), clock(n), image(n))];
    RunSnoc(s, Expiries(submit, clock, image, n), TimerExpired(submit(n), clock(n), image(n)));
  }

  function Expiries(submit: nat -> bool, clock: nat -> u32, image: nat -> Option<seq<byte>>, n: nat): seq<Event> {
    seq(n, (i: nat) => TimerExpired(submit(i), clock(i), image(i)))
  }
}
