/**
 * Command exchange of the USB LED client (`send_command`): the SetPattern frame,
 * the handshake-gated query with its bounded poll loop, and the transport and
 * clock it drives, observed as a trace of events.
 */
module CommandExchange {
  import opened Options
  import opened ColorCodec

  /** Command bytes the device understands; every other value is a no-op. */
  const SetPatternCommand: Byte := 1
  const QueryCommand: Byte := 2

  /** Length of the SetPattern frame and of the query reply buffer. */
  const FrameSize: nat := 26
  const ReplySize: nat := 26

  /** The query gives up once this many milliseconds have elapsed. */
  const DeadlineMs: nat := 10000

  /** The poll loop sleeps this long between checks. */
  const PollIntervalMs: nat := 1

  /** Six channels: colour 1 (h, s, v) then colour 2 (h, s, v). */
  const ChannelCount: nat := 6

  /**
   * `[command][pattern][c1.h][c1.s][c1.v][c2.h][c2.s][c2.v]`, each channel as
   * its four little-endian bytes.
   */
  function SetPatternFrame(command: Byte, pattern: Byte, colorVals: seq<Word>): seq<Byte>
    requires |colorVals| == ChannelCount
  {
    [command, pattern] + LeWords(colorVals)
  }

  /** One thing the exchange does to the port or the clock, in the order it does it. */
  datatype Event =
    | ClearInput                        // clear(ClearBuffer::Input)
    | SetRts(level: bool)               // write_request_to_send(level)
    | Write(bytes: seq<Byte>)           // write(bytes), result discarded
    | ClockRead(at: nat)                // Instant::now() or elapsed(), reading the clock at `at` ms
    | BytesToRead(reply: Option<nat>)   // bytes_to_read(), None on error
    | ReadExact(ok: bool)               // read_exact(&mut buf) into the 26-byte buffer
    | Slept(ms: nat)                    // sleep(1 ms), which lasted `ms`

  /** What one call of `send_command` ends with. */
  datatype Outcome =
    | NoOp                                                    // command 0 or unknown
    | Sent                                                    // SetPattern frame handed to write
    | Success(pattern: Byte, color1: seq<Word>, color2: seq<Word>)
    | ReadError                                               // read_exact failed
    | Timeout                                                 // 26 bytes never became available

  /**
   * The device and the host's clock, as the exchange sees them: what
   * `bytes_to_read` answers at each clock reading, how far past the requested
   * interval a sleep starting at each reading runs, the bytes the line delivers
   * to `read_exact`, and whether `read_exact` reports an I/O error.
   */
  datatype Device = Device(
    available: nat -> Option<nat>,
    oversleep: nat -> nat,
    received: seq<Byte>,
    readFails: bool)

  /** `bytes_to_read().unwrap_or(0) >= 26`: an error counts as nothing available. */
  predicate Ready(reply: Option<nat>) {
    reply.GetOr(0) >= ReplySize
  }

  /** `read_exact` into an `n`-byte buffer succeeds when there is no I/O error and `n` bytes arrive. */
  predicate ReadOk(dev: Device, n: nat) {
    !dev.readFails && |dev.received| >= n
  }

  /** Decoding a full reply buffer: pattern byte 0, colour 1 from bytes 1..13, colour 2 from 13..25. */
  function DecodeReply(buf: seq<Byte>): Outcome
    requires |buf| >= 25
  {
    Success(buf[0], DecodeColor(buf[1..13]), DecodeColor(buf[13..25]))
  }

  /** Only the first 26 bytes that arrive make up the reply. */
  lemma DecodeReplyPrefix(received: seq<Byte>)
    requires |received| >= ReplySize
    ensures DecodeReply(received[..ReplySize]) == DecodeReply(received)
  {
    assert received[..ReplySize][1..13] == received[1..13];
    assert received[..ReplySize][13..25] == received[13..25];
  }

  /** The events an exchange produces, how it ends and the clock reading at the end. */
  datatype Run = Run(events: seq<Event>, outcome: Outcome, finish: nat)

  /** How the poll loop left: `read_exact` filled the buffer, `read_exact` failed, or the deadline passed. */
  datatype PollEnd = BufferFull | ReadFailed | Expired

  /** The events of the poll loop, how it left and the clock reading then. */
  datatype Poll = Poll(events: seq<Event>, end: PollEnd, finish: nat)

  /** What the query reports after the loop: decode the buffer only when it was filled. */
  function Conclude(end: PollEnd, buf: seq<Byte>): Outcome
    requires end == BufferFull ==> |buf| >= 25
  {
    match end
    case BufferFull => DecodeReply(buf)
    case ReadFailed => ReadError
    case Expired => Timeout
  }

  /** Milliseconds one sleep of the poll loop lasts when it starts at `now`. */
  function SleepLength(dev: Device, now: nat): nat {
    PollIntervalMs + dev.oversleep(now)
  }

  /**
   * The poll loop from clock reading `now`, with the deadline started at `start`:
   * check the elapsed time, poll `bytes_to_read`, read once when 26 bytes are
   * there, otherwise sleep and go round again.
   */
  function PollLoop(dev: Device, start: nat, now: nat): Poll
    requires start <= now
    decreases start + DeadlineMs - now
  {
    if now - start >= DeadlineMs then
      Poll([ClockRead(now)], Expired, now)
    else
      var reply := dev.available(now);
      if Ready(reply) then
        var ok := ReadOk(dev, ReplySize);
        Poll([ClockRead(now), BytesToRead(reply), ReadExact(ok)], if ok then BufferFull else ReadFailed, now)
      else
        var d := SleepLength(dev, now);
        var rest := PollLoop(dev, start, now + d);
        Poll([ClockRead(now), BytesToRead(reply), Slept(d)] + rest.events, rest.end, rest.finish)
  }

  /** The loop only reports a full buffer when `read_exact` succeeded, so 26 bytes arrived. */
  lemma {:induction false} PollFullMeansRead(dev: Device, start: nat, now: nat)
    requires start <= now
    ensures PollLoop(dev, start, now).end == BufferFull ==> ReadOk(dev, ReplySize)
    decreases start + DeadlineMs - now
  {
    if now - start < DeadlineMs && !Ready(dev.available(now)) {
      PollFullMeansRead(dev, start, now + SleepLength(dev, now));
    }
  }

  /** The query handshake before polling; the deadline starts at clock reading `t0`. */
  function QuerySetup(t0: nat): seq<Event> {
    [ClearInput, SetRts(false), Write([QueryCommand]), ClockRead(t0), SetRts(true)]
  }

  /** Everything one call of `send_command` does, starting at clock reading `t0`. */
  function Exchange(command: Byte, pattern: Byte, colorVals: seq<Word>, dev: Device, t0: nat): Run
    requires |colorVals| == ChannelCount
  {
    if command == SetPatternCommand then
      Run([Write(SetPatternFrame(command, pattern, colorVals))], Sent, t0)
    else if command == QueryCommand then
      var poll := PollLoop(dev, t0, t0);
      PollFullMeansRead(dev, t0, t0);
      Run(QuerySetup(t0) + poll.events, Conclude(poll.end, dev.received), poll.finish)
    else
      Run([], NoOp, t0)
  }

  /**
   * An already opened and configured serial port together with the host clock.
   * Every call is appended to `trace`; `now` is the clock in milliseconds.
   */
  class Link {
    const device: Device
    var trace: seq<Event>
    var now: nat

    constructor (device: Device, now: nat)
      ensures this.device == device && this.now == now && trace == []
    {
      this.device := device;
      this.now := now;
      trace := [];
    }

    method ClearInput()
      modifies this
      ensures trace == old(trace) + [Event.ClearInput] && now == old(now)
    {
      trace := trace + [Event.ClearInput];
    }

    method SetRts(level: bool)
      modifies this
      ensures trace == old(trace) + [Event.SetRts(level)] && now == old(now)
    {
      trace := trace + [Event.SetRts(level)];
    }

    method Write(bytes: seq<Byte>)
      modifies this
      ensures trace == old(trace) + [Event.Write(bytes)] && now == old(now)
    {
      trace := trace + [Event.Write(bytes)];
    }

    method Now() returns (t: nat)
      modifies this
      ensures t == now == old(now)
      ensures trace == old(trace) + [ClockRead(t)]
    {
      t := now;
      trace := trace + [ClockRead(t)];
    }

    method BytesToRead() returns (reply: Option<nat>)
      modifies this
      ensures reply == device.available(now) && now == old(now)
      ensures trace == old(trace) + [Event.BytesToRead(reply)]
    {
      reply := device.available(now);
      trace := trace + [Event.BytesToRead(reply)];
    }

    /** Fills all of `buf` on success; on failure its contents are unspecified. */
    method ReadExact(buf: array<Byte>) returns (ok: bool)
      modifies this, buf
      ensures ok == ReadOk(device, buf.Length) && now == old(now)
      ensures ok ==> buf[..] == device.received[..buf.Length]
      ensures trace == old(trace) + [Event.ReadExact(ok)]
    {
      ok := ReadOk(device, buf.Length);
      if ok {
        forall i | 0 <= i < buf.Length {
          buf[i] := device.received[i];
        }
      }
      trace := trace + [Event.ReadExact(ok)];
    }

    method Sleep(ms: nat)
      modifies this
      ensures now == old(now) + ms + device.oversleep(old(now))
      ensures trace == old(trace) + [Slept(ms + device.oversleep(old(now)))]
    {
      var d := ms + device.oversleep(now);
      now := now + d;
      trace := trace + [Slept(d)];
    }
  }

  /** One round of the poll loop that finds the deadline not yet passed and too few bytes. */
  lemma PollLoopStep(dev: Device, start: nat, now: nat)
    requires start <= now && now - start < DeadlineMs && !Ready(dev.available(now))
    ensures var next := PollLoop(dev, start, now + SleepLength(dev, now));
      PollLoop(dev, start, now)
        == Poll([ClockRead(now), BytesToRead(dev.available(now)), Slept(SleepLength(dev, now))] + next.events,
                next.end, next.finish)
  {
  }

  /**
   * One round of the poll loop: check the elapsed time, poll `bytes_to_read`,
   * and either call `read_exact` once and stop, or sleep one interval.
   * `stop` is the loop's `break`; `step` is what the round added to the trace.
   */
  method PollRound(link: Link, buf: array<Byte>, start: nat)
    returns (stop: bool, bufferFull: bool, readError: bool, ghost step: seq<Event>)
    requires start <= link.now && buf.Length == ReplySize
    modifies link, buf
    ensures start <= link.now
    ensures bufferFull ==> ReadOk(link.device, ReplySize) && buf[..] == link.device.received[..ReplySize]
    ensures var rest := PollLoop(link.device, start, old(link.now));
      if stop then
        link.trace == old(link.trace) + rest.events && link.now == rest.finish
        && (bufferFull <==> rest.end == BufferFull) && (readError <==> rest.end == ReadFailed)
      else
        var next := PollLoop(link.device, start, link.now);
        old(link.now) - start < DeadlineMs && old(link.now) < link.now && link.trace == old(link.trace) + step
        && rest == Poll(step + next.events, next.end, next.finish)
  {
    stop, bufferFull, readError, step := true, false, false, [];
    ghost var dev := link.device;
    ghost var mark := link.trace;
    ghost var rest := PollLoop(dev, start, link.now);
    var t := link.Now();
    if t - start >= DeadlineMs {
      return;
    }
    var reply := link.BytesToRead();
    if reply.GetOr(0) >= ReplySize {
      var ok := link.ReadExact(buf);
      if ok {
        bufferFull := true;
      } else {
        readError := true;
      }
      assert link.trace == ((mark + [ClockRead(t)]) + [Event.BytesToRead(reply)]) + [ReadExact(ok)];
      return;
    }
    PollLoopStep(dev, start, t);
    link.Sleep(PollIntervalMs);
    stop := false;
    step := [ClockRead(t), Event.BytesToRead(reply), Slept(SleepLength(dev, t))];
  }

  /**
   * The poll loop of the query: until the deadline started at `start` has passed,
   * poll `bytes_to_read`, and once 26 bytes are there call `read_exact` once and stop.
   */
  method PollUntilFull(link: Link, buf: array<Byte>, start: nat) returns (bufferFull: bool, readError: bool)
    requires start <= link.now && buf.Length == ReplySize
    modifies link, buf
    ensures bufferFull ==> ReadOk(link.device, ReplySize) && buf[..] == link.device.received[..ReplySize]
    ensures var poll := PollLoop(link.device, start, old(link.now));
      link.trace == old(link.trace) + poll.events && link.now == poll.finish
      && (bufferFull <==> poll.end == BufferFull) && (readError <==> poll.end == ReadFailed)
  {
    ghost var dev := link.device;
    ghost var target := link.trace + PollLoop(dev, start, link.now).events;
    ghost var whole := PollLoop(dev, start, link.now);
    ghost var rest := whole;
    while true
      invariant start <= link.now && rest == PollLoop(dev, start, link.now)
      invariant link.trace + rest.events == target
      invariant rest.end == whole.end && rest.finish == whole.finish
      decreases start + DeadlineMs - link.now
    {
      ghost var mark := link.trace;
      var stop;
      ghost var step;
      stop, bufferFull, readError, step := PollRound(link, buf, start);
      if stop {
        return;
      }
      ghost var next := PollLoop(dev, start, link.now);
      assert link.trace + next.events == target by {
        assert (mark + step) + next.events == mark + (step + next.events);
      }
      rest := next;
    }
  }

  /** The query branch of `send_command` (command 2). */
  method Query(link: Link) returns (outcome: Outcome)
    modifies link
    ensures var poll := PollLoop(link.device, old(link.now), old(link.now));
      link.trace == old(link.trace) + QuerySetup(old(link.now)) + poll.events && link.now == poll.finish
    ensures PollLoop(link.device, old(link.now), old(link.now)).end == BufferFull ==> ReadOk(link.device, ReplySize)
    ensures outcome == Conclude(PollLoop(link.device, old(link.now), old(link.now)).end, link.device.received)
  {
    var buf := new Byte[ReplySize](_ => 0);
    ghost var t0 := link.now;
    ghost var before := link.trace;
    link.ClearInput();
    link.SetRts(false);
    link.Write([QueryCommand]);
    var start := link.Now();
    link.SetRts(true);
    assert link.trace == before + QuerySetup(t0);
    ghost var poll := PollLoop(link.device, t0, t0);
    PollFullMeansRead(link.device, t0, t0);
    var bufferFull, readError := PollUntilFull(link, buf, start);
    assert link.trace == before + QuerySetup(t0) + poll.events;
    if bufferFull {
      var color1 := ParseColor(buf[1..13]);
      var color2 := ParseColor(buf[13..25]);
      outcome := Success(buf[0], color1, color2);
      assert outcome == DecodeReply(buf[..]) by {
        assert buf[1..13] == buf[..][1..13] && buf[13..25] == buf[..][13..25];
      }
      DecodeReplyPrefix(link.device.received);
    } else if readError {
      outcome := ReadError;
    } else {
      outcome := Timeout;
    }
  }

  /** `send_command` on an open port: dispatch on the command byte. */
  method SendCommand(command: Byte, pattern: Byte, colorVals: seq<Word>, link: Link) returns (outcome: Outcome)
    requires |colorVals| == ChannelCount
    modifies link
    ensures var run := Exchange(command, pattern, colorVals, link.device, old(link.now));
      link.trace == old(link.trace) + run.events && link.now == run.finish && outcome == run.outcome
  {
    if command == SetPatternCommand {
      link.Write(SetPatternFrame(command, pattern, colorVals));
      outcome := Sent;
    } else if command == QueryCommand {
      outcome := Query(link);
    } else {
      outcome := NoOp;
    }
  }
}
