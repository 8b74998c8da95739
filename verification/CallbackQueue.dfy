/** The callback queue of callback-queue.c: length-prefixed commands in a pipe, drained in one read. */
module CallbackQueue {
  import opened ByteUtilities
  import opened EmberTypes

  /** Size of the buffer one drain reads into: 50 commands. */
  const MAX_PIPE_QUEUE_SIZE := 50 * MAX_STACK_API_COMMAND_SIZE
  /** POSIX.1-2017 write(): larger writes to a pipe need not be atomic. */
  const PIPE_BUF := 4096

  /** A command the dispatcher can read and whose length fits the prefix: it holds at least its own identifier. */
  type Command = c: seq<byte> | 2 <= |c| < 0x1_0000 witness [0, 0]

  function Frame(c: Command): (f: seq<byte>)
    ensures |f| == |c| + 2
  {
    HighLow16(|c|) + c
  }

  function Frames(cs: seq<Command>): seq<byte> {
    if cs == [] then [] else Frame(cs[0]) + Frames(cs[1..])
  }

  /** Size of the complete frame at the front of a byte string, or zero if there is none. */
  function FirstFrame(bytes: seq<byte>): (k: nat)
    ensures k > 0 ==> 4 <= k <= |bytes|
  {
    if |bytes| < 2 then 0
    else
      var n := FetchHighLow16(bytes);
      if n < 2 || |bytes| < 2 + n then 0 else 2 + n
  }

  /** The commands in a byte string, if it is cut exactly between frames. */
  function Parse(bytes: seq<byte>): Option<seq<seq<byte>>> {
    if bytes == [] then Some([])
    else
      var k := FirstFrame(bytes);
      if k == 0 || Parse(bytes[k..]).None? then None
      else Some([bytes[2..k]] + Parse(bytes[k..]).value)
  }

  lemma FirstFrameConcat(a: seq<byte>, b: seq<byte>)
    requires FirstFrame(a) > 0
    ensures var k := FirstFrame(a); FirstFrame(a + b) == k && (a + b)[2..k] == a[2..k] && (a + b)[k..] == a[k..] + b
  {
    assert FetchHighLow16(a + b) == FetchHighLow16(a);
  }

  /** Taking the first frame off. */
  lemma ParseStep(bytes: seq<byte>, head: seq<byte>, rest: seq<byte>)
    requires FirstFrame(bytes) > 0 && head == bytes[2..FirstFrame(bytes)] && rest == bytes[FirstFrame(bytes)..]
    ensures Parse(bytes).Some? <==> Parse(rest).Some?
    ensures Parse(rest).Some? ==> Parse(bytes).value == [head] + Parse(rest).value
  {
  }

  lemma {:induction false} ParseConcat(a: seq<byte>, b: seq<byte>)
    requires Parse(a).Some?
    ensures Parse(a + b).Some? <==> Parse(b).Some?
    ensures Parse(b).Some? ==> Parse(a + b).value == Parse(a).value + Parse(b).value
  {
    if a == [] {
      assert a + b == b;
    } else {
      var k := FirstFrame(a);
      FirstFrameConcat(a, b);
      ParseStep(a, a[2..k], a[k..]);
      ParseStep(a + b, a[2..k], a[k..] + b);
      ParseConcat(a[k..], b);
      if Parse(b).Some? {
        Regroup([a[2..k]], Parse(a[k..]).value, Parse(b).value);
      }
    }
  }

  lemma ParseFrame(c: Command)
    ensures Parse(Frame(c)).Some? && Parse(Frame(c)).value == [c]
  {
    var f := Frame(c);
    StoreFetch16(|c|, [0, 0]);
    assert FetchHighLow16(f) == FetchHighLow16(HighLow16(|c|));
    assert f[2..2 + |c|] == c && f[2 + |c|..] == [];
    assert Parse(f[2 + |c|..]).value == [];
  }

  /** Framing loses nothing, whatever the number and the lengths of the commands. */
  lemma {:induction false} ParseFrames(cs: seq<Command>)
    ensures Parse(Frames(cs)).Some? && Parse(Frames(cs)).value == cs
  {
    if cs != [] {
      ParseFrame(cs[0]);
      ParseFrames(cs[1..]);
      ParseConcat(Frame(cs[0]), Frames(cs[1..]));
      assert [cs[0]] + cs[1..] == cs;
    }
  }

  // ---- The drain loop ----

  /** How a drain ends: all read, the fatal exit on missing data, or a read past the buffer. */
  datatype Drained = Complete | MissingData | OutOfBuffer

  /**
   * What the drain loop hands to the dispatcher, each time the buffer from an identifier on, and how
   * it ends, with `n` bytes left of what was read and `rest` of the buffer still ahead. A command is
   * dispatched before its length is checked against the bytes left.
   */
  function Turns(rest: seq<byte>, n: nat): (seq<seq<byte>>, Drained)
    requires n <= |rest|
    decreases n
  {
    if n == 0 then ([], Complete)
    else if |rest| < 4 then ([], OutOfBuffer)
    else
      var next := 2 + FetchHighLow16(rest);
      if next > n then ([rest[2..]], MissingData)
      else
        var (later, end) := Turns(rest[next..], n - next);
        ([rest[2..]] + later, end)
  }

  /** The bytes end between two length-prefixed frames, however short these are. */
  predicate EndsBetweenFrames(bytes: seq<byte>)
    decreases |bytes|
  {
    bytes == [] ||
    (|bytes| >= 2 && 2 + FetchHighLow16(bytes) <= |bytes| && EndsBetweenFrames(bytes[2 + FetchHighLow16(bytes)..]))
  }

  /**
   * The drain is complete exactly when what was read ends between frames, and otherwise stops at the
   * missing data, whatever the buffer held before.
   */
  lemma {:induction false} CompleteExactlyBetweenFrames(bytes: seq<byte>, stale: seq<byte>)
    requires |stale| >= 3
    ensures Turns(bytes + stale, |bytes|).1 == if EndsBetweenFrames(bytes) then Complete else MissingData
    decreases |bytes|
  {
    if |bytes| >= 2 {
      var rest := bytes + stale;
      assert FetchHighLow16(rest) == FetchHighLow16(bytes);
      var next := 2 + FetchHighLow16(bytes);
      if next <= |bytes| {
        assert rest[next..] == bytes[next..] + stale;
        CompleteExactlyBetweenFrames(bytes[next..], stale);
      }
    }
  }

  /** Each dispatch is given its command, with more of the buffer behind it. */
  predicate Lead(commands: seq<seq<byte>>, handled: seq<seq<byte>>) {
    |commands| == |handled| && forall i :: 0 <= i < |commands| ==> commands[i] <= handled[i]
  }

  lemma LeadOneMore(command: seq<byte>, call: seq<byte>, commands: seq<seq<byte>>, handled: seq<seq<byte>>)
    requires command <= call && Lead(commands, handled)
    ensures Lead([command] + commands, [call] + handled)
  {
  }

  lemma FirstTurn(rest: seq<byte>, n: nat, next: nat)
    requires 0 < n <= |rest| && |rest| >= 4 && next == 2 + FetchHighLow16(rest) && next <= n
    ensures Turns(rest, n).0 == [rest[2..]] + Turns(rest[next..], n - next).0
    ensures Turns(rest, n).1 == Turns(rest[next..], n - next).1
  {
  }

  /** Whole commands are dispatched one by one, in order, each with the rest of the buffer behind it. */
  lemma {:induction false} TurnsOverCommands(bytes: seq<byte>, stale: seq<byte>)
    requires Parse(bytes).Some?
    ensures Turns(bytes + stale, |bytes|).1 == Complete && Lead(Parse(bytes).value, Turns(bytes + stale, |bytes|).0)
    decreases |bytes|
  {
    if bytes != [] {
      var k := FirstFrame(bytes);
      FirstFrameConcat(bytes, stale);
      FirstTurn(bytes + stale, |bytes|, k);
      ParseStep(bytes, bytes[2..k], bytes[k..]);
      TurnsOverCommands(bytes[k..], stale);
      assert (bytes + stale)[2..][..k - 2] == bytes[2..k];
      LeadOneMore(bytes[2..k], (bytes + stale)[2..], Parse(bytes[k..]).value, Turns(bytes[k..] + stale, |bytes| - k).0);
    }
  }

  /** The bytes are the beginning of a frame that is not all there. */
  predicate CutFrame(part: seq<byte>) {
    |part| == 1 || (|part| >= 2 && 2 + FetchHighLow16(part) > |part|)
  }

  /**
   * A frame cut off at the end of what was read is dispatched all the same, with whatever the buffer
   * held before in the place of its missing bytes; only then does the drain stop.
   */
  lemma {:induction false} CutFrameIsDispatched(whole: seq<byte>, part: seq<byte>, stale: seq<byte>)
    requires Parse(whole).Some? && CutFrame(part) && |stale| >= 3
    ensures var (handled, end) := Turns(whole + part + stale, |whole| + |part|);
            end == MissingData && |handled| == |Parse(whole).value| + 1 &&
            Lead(Parse(whole).value, handled[..|handled| - 1]) && handled[|handled| - 1] == (part + stale)[2..]
    decreases |whole|
  {
    Regroup(whole, part, stale);
    if whole == [] {
      assert whole + (part + stale) == part + stale;
      if |part| >= 2 {
        assert FetchHighLow16(part + stale) == FetchHighLow16(part);
      }
    } else {
      var k := FirstFrame(whole);
      var rest := whole + (part + stale);
      FirstFrameConcat(whole, part + stale);
      FirstTurn(rest, |whole| + |part|, k);
      ParseStep(whole, whole[2..k], whole[k..]);
      CutFrameIsDispatched(whole[k..], part, stale);
      Regroup(whole[k..], part, stale);
      assert rest[2..][..k - 2] == whole[2..k];
      OneMoreTurn(whole[2..k], rest[2..], Parse(whole[k..]).value,
                  Turns(whole[k..] + (part + stale), |whole| - k + |part|).0);
    }
  }

  lemma OneMoreTurn(command: seq<byte>, call: seq<byte>, commands: seq<seq<byte>>, handled: seq<seq<byte>>)
    requires command <= call && handled != [] && Lead(commands, handled[..|handled| - 1])
    ensures var more := [call] + handled;
            Lead([command] + commands, more[..|more| - 1]) && more[|more| - 1] == handled[|handled| - 1]
  {
    LeadOneMore(command, call, commands, handled[..|handled| - 1]);
    assert ([call] + handled)[..|handled|] == [call] + handled[..|handled| - 1];
  }

  class Queue {
    /** The pipe: bytes written and not yet read. */
    var pipe: seq<byte>
    /** Bytes the pipe holds before a write blocks. */
    const capacity: nat
    /** Commands appended, and those of them already passed to the dispatcher. */
    ghost var appended: seq<seq<byte>>
    ghost var dispatched: seq<seq<byte>>

    ghost predicate Valid()
      reads this
    {
      |pipe| <= capacity <= MAX_PIPE_QUEUE_SIZE && Parse(pipe).Some? && appended == dispatched + Parse(pipe).value
    }

    constructor (capacity: nat)
      requires capacity <= MAX_PIPE_QUEUE_SIZE
      ensures Valid() && pipe == [] && appended == [] && dispatched == [] && this.capacity == capacity
    {
      pipe, dispatched, appended := [], [], [];
      this.capacity := capacity;
    }

    /** The moment the write completes; while there is no room it blocks. */
    method AppendCallbackCommand(command: Command)
      requires Valid() && |pipe| + 2 + |command| <= capacity
      modifies this
      ensures Valid() && pipe == old(pipe) + Frame(command)
      ensures appended == old(appended) + [command] && dispatched == old(dispatched)
    {
      var pipeCommand := new byte[|command| + 2];
      StoreHighLowInt16u(pipeCommand, 0, |command|);
      CopyInto(pipeCommand, 2, command);
      assert pipeCommand[..] == Frame(command);
      ParseFrame(command);
      ParseConcat(pipe, pipeCommand[..]);
      pipe := pipe + pipeCommand[..];
      appended := appended + [command];
    }

    /**
     * Empties the queue: afterwards every command appended has been dispatched, once, in order, with
     * the bytes behind it in the read buffer. `stale` is what the buffer held behind the bytes read.
     */
    method HandlePendingCallbackCommands(stale: seq<byte>) returns (handled: seq<seq<byte>>)
      requires Valid() && |pipe| + |stale| == MAX_PIPE_QUEUE_SIZE
      modifies this
      ensures Valid() && pipe == [] && appended == old(appended) && dispatched == appended
      ensures Lead(Parse(old(pipe)).value, handled) && dispatched == old(dispatched) + Parse(old(pipe)).value
    {
      var size := if |pipe| < MAX_PIPE_QUEUE_SIZE then |pipe| else MAX_PIPE_QUEUE_SIZE;
      var chunk := pipe[..size];
      assert chunk == pipe;
      TurnsOverCommands(chunk, stale);
      var end;
      handled, end := Drain(chunk + stale, size);
      assert end == Complete;
      pipe := pipe[size..];
      dispatched := appended;
    }

    /** The drain loop over a buffer of which `size` bytes were read. */
    static method Drain(pipeBuffer: seq<byte>, size: nat) returns (handled: seq<seq<byte>>, end: Drained)
      requires size <= |pipeBuffer|
      ensures (handled, end) == Turns(pipeBuffer, size)
    {
      var finger := pipeBuffer;
      var bytesToRead := size;
      handled := [];
      assert [] + Turns(pipeBuffer, size).0 == Turns(pipeBuffer, size).0;
      while bytesToRead > 0
        invariant 0 <= bytesToRead <= |finger|
        invariant Turns(pipeBuffer, size) == (handled + Turns(finger, bytesToRead).0, Turns(finger, bytesToRead).1)
        decreases bytesToRead
      {
        if |finger| < 4 {
          assert handled + [] == handled;
          return handled, OutOfBuffer;
        }
        var commandLength := FetchHighLow16(finger);
        Regroup(handled, [finger[2..]], if 2 + commandLength > bytesToRead then [] else
                  Turns(finger[2 + commandLength..], bytesToRead - 2 - commandLength).0);
        handled := handled + [finger[2..]];
        bytesToRead := bytesToRead - (commandLength as int + 2);
        if bytesToRead < 0 {
          assert handled + [] == handled;
          return handled, MissingData;
        }
        finger := finger[2 + commandLength..];
      }
      assert handled + [] == handled;
      end := Complete;
    }
  }
}
