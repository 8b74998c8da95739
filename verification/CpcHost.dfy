/** The poll thread's handler and the blocking-command half of the host transport, over real buffers. */
module CpcHost {
  import opened ByteUtilities
  import opened EmberTypes
  import opened CallbackQueue
  import opened HostTransport

  /** The part of the transport's state these functions work on. */
  datatype Link = Link(responseBuffer: seq<byte>, tokens: nat, pipe: seq<byte>, dispatched: seq<seq<byte>>, fatal: bool)

  function LinkOf(h: Host): Link {
    Link(h.responseBuffer, h.tokens, h.pipe, h.dispatched, h.dead)
  }

  /**
   * The message overwrites the front of the response buffer, and its first byte decides between a
   * response token, an entry of the callback queue, and the fatal exit.
   */
  function Polled(k: Link, message: seq<byte>): Link
    requires 0 < |message| <= |k.responseBuffer|
  {
    Demultiplexed(k.(responseBuffer := Spliced(k.responseBuffer, 0, message)), message)
  }

  function Demultiplexed(k: Link, message: seq<byte>): Link
    requires 0 < |message|
  {
    if message[0] == RESPONSE_ORIGIN then k.(tokens := k.tokens + 1)
    else if message[0] == INDICATION_ORIGIN then
      if 2 <= |message| < 0x1_0000 then k.(pipe := k.pipe + Frame(message)) else k
    else k.(fatal := true)
  }

  lemma ReadRefines(h: Host)
    requires Buffered(h) && Enabled(h, PollReads)
    ensures h.inbound[0] in h.inbound
    ensures var m, read := h.inbound[0], Apply(h, PollReads);
            read.read == Some(m) && m.bytes <= read.responseBuffer &&
            LinkOf(read) == LinkOf(h).(responseBuffer := Spliced(h.responseBuffer, 0, m.bytes))
  {
    assert h.inbound[0] in h.inbound;
  }

  lemma DispatchRefines(h: Host)
    requires Buffered(h) && Enabled(h, PollDispatches)
    ensures LinkOf(Apply(h, PollDispatches)) == Demultiplexed(LinkOf(h), h.read.value.bytes)
  {
    var message := h.read.value.bytes;
    assert h.responseBuffer[0] == message[0] && h.responseBuffer[..|message|] == message;
    assert 2 <= |message| < 0x1_0000 && |message| % 0x1_0000 == |message|;
    if message[0] == INDICATION_ORIGIN {
      Regroup(h.pipe, HighLow16(|message|), message);
    }
  }

  /** In the interleaving model the two steps of the poll thread, taken together, are this function. */
  lemma PollRefines(h: Host)
    requires Buffered(h) && Enabled(h, PollReads) && Buffered(Apply(h, PollReads)) &&
             Enabled(Apply(h, PollReads), PollDispatches)
    ensures h.inbound[0] in h.inbound
    ensures LinkOf(Apply(Apply(h, PollReads), PollDispatches)) == Polled(LinkOf(h), h.inbound[0].bytes)
  {
    ReadRefines(h);
    DispatchRefines(Apply(h, PollReads));
  }

  /** The two steps of the mutex holder at the end of a blocking command. */
  lemma ReceiveRefines(h: Host)
    requires Buffered(h) && Enabled(h, ReadToken)
    ensures Buffered(Apply(h, ReadToken)) && Enabled(Apply(h, ReadToken), CopyResponse)
    ensures var end := Apply(Apply(h, ReadToken), CopyResponse);
            LinkOf(end) == LinkOf(h).(tokens := h.tokens - 1) &&
            end.apiCommandData == h.responseBuffer[..MAX_STACK_API_COMMAND_SIZE]
  {
  }

  /** A drain from start to end, with the callback thread alone. */
  lemma DrainRefines(h: Host)
    requires Buffered(h) && h.chunk == [] && !h.dead && |h.pipe| <= MAX_PIPE_QUEUE_SIZE && Parse(h.pipe).Some?
    ensures Buffered(Apply(h, StartDrain))
    ensures LinkOf(AfterDrain(Apply(h, StartDrain)))
         == LinkOf(h).(pipe := [], dispatched := h.dispatched + Parse(h.pipe).value)
  {
    var started := Apply(h, StartDrain);
    assert started.chunk == h.pipe && started.pipe == [];
    DrainsAll(started);
  }

  class CpcHost {
    const responseBuffer: array<byte>
    /** Response tokens in the pipe. */
    var tokens: nat
    const queue: Queue
    /** Set at the fatal exit on an unknown message type. */
    var fatal: bool

    ghost predicate Valid()
      reads this, queue
    {
      responseBuffer.Length == RESPONSE_BUFFER_SIZE && queue.Valid()
    }

    ghost function State(): Link
      reads this, queue, responseBuffer
    {
      Link(responseBuffer[..], tokens, queue.pipe, queue.dispatched, fatal)
    }

    constructor (queue: Queue)
      requires queue.Valid()
      ensures Valid() && tokens == 0 && !fatal && this.queue == queue && fresh(responseBuffer)
    {
      responseBuffer := new byte[RESPONSE_BUFFER_SIZE](_ => 0);
      tokens, fatal := 0, false;
      this.queue := queue;
    }

    /** sl_connect_ncp_poll_cb. */
    method PollCb(message: seq<byte>)
      requires Valid() && 0 < |message| <= RESPONSE_BUFFER_SIZE
      requires message[0] == INDICATION_ORIGIN ==> 2 <= |message| && |queue.pipe| + 2 + |message| <= queue.capacity
      modifies this, responseBuffer, queue
      ensures Valid() && State() == Polled(old(State()), message)
      ensures queue.appended == old(queue.appended) + if message[0] == INDICATION_ORIGIN then [message] else []
    {
      CopyInto(responseBuffer, 0, message);
      var commandLength := |message|;
      assert responseBuffer[..commandLength] == message;
      var commandOrigin := responseBuffer[0];
      if commandOrigin == 0x69 {
        tokens := tokens + 1;
      } else if commandOrigin == 0x63 {
        queue.AppendCallbackCommand(responseBuffer[..commandLength]);
      } else {
        fatal := true;
      }
    }

    /** The end of sendBlockingCommand: takes the token, then copies the buffer as it is by then. */
    method ReceiveResponse(apiCommandData: array<byte>)
      requires Valid() && tokens > 0
      requires apiCommandData.Length == MAX_STACK_API_COMMAND_SIZE && apiCommandData != responseBuffer
      modifies this`tokens, apiCommandData
      ensures Valid() && State() == old(State()).(tokens := old(tokens) - 1)
      ensures apiCommandData[..] == old(responseBuffer[..MAX_STACK_API_COMMAND_SIZE])
    {
      tokens := tokens - 1;
      CopyInto(apiCommandData, 0, responseBuffer[..MAX_STACK_API_COMMAND_SIZE]);
    }

    /** sl_connect_ncp_handle_pending_callback_commands. */
    method HandlePendingCallbackCommands(stale: seq<byte>) returns (handled: seq<seq<byte>>)
      requires Valid() && |queue.pipe| + |stale| == MAX_PIPE_QUEUE_SIZE
      modifies queue
      ensures Valid() && Lead(Parse(old(queue.pipe)).value, handled)
      ensures State() == old(State()).(pipe := [], dispatched := old(queue.dispatched) + Parse(old(queue.pipe)).value)
    {
      handled := queue.HandlePendingCallbackCommands(stale);
    }
  }

  /**
   * The three ways a message can go, by its first byte: 0x69 is an answer, 0x63 an indication, and
   * anything else is fatal.
   */
  lemma PolledExactly(k: Link, message: seq<byte>)
    requires 2 <= |message| <= |k.responseBuffer| && |message| < 0x1_0000
    ensures var polled := Polled(k, message);
            message <= polled.responseBuffer && polled.responseBuffer[|message|..] == k.responseBuffer[|message|..] &&
            polled.tokens == k.tokens + (if message[0] == 0x69 then 1 else 0) &&
            polled.pipe == k.pipe + (if message[0] == 0x63 then HighLow16(|message|) + message else []) &&
            polled.dispatched == k.dispatched && (polled.fatal <==> k.fatal || message[0] !in {0x69, 0x63})
  {
    assert k.pipe + [] == k.pipe;
  }
}
