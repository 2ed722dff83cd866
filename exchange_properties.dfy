/**
 * What `send_command` guarantees, proved about the reference definitions
 * `SetPatternFrame`, `PollLoop` and `Exchange` that the methods are verified against.
 */
module ExchangeProperties {
  import opened Options
  import opened ColorCodec
  import opened CommandExchange

  /** The last event of a non-empty trace. */
  function Last(e: seq<Event>): Event
    requires |e| > 0
  {
    e[|e| - 1]
  }

  /** An event of the poll phase: no clear, no RTS change and no write. */
  predicate PollEvent(e: Event) {
    e.ClockRead? || e.BytesToRead? || e.ReadExact? || e.Slept?
  }

  /**
   * `read_exact` comes only right after a `bytes_to_read` that reported 26 or more
   * (an error counting as 0), only as the very last event, and such a report is
   * always followed by it.
   */
  predicate ReadsOnlyWhenReady(e: seq<Event>) {
    (forall i :: 0 <= i < |e| && e[i].ReadExact? ==>
      i == |e| - 1 && 0 < i && e[i - 1].BytesToRead? && Ready(e[i - 1].reply))
    && (forall i :: 0 <= i < |e| && e[i].BytesToRead? && Ready(e[i].reply) ==>
      i + 1 < |e| && e[i + 1].ReadExact?)
  }

  /** No `read_exact` anywhere in the trace. */
  predicate NoRead(e: seq<Event>) {
    forall i :: 0 <= i < |e| ==> !e[i].ReadExact?
  }

  // ---------------------------------------------------------------- SetPattern

  /**
   * The SetPattern frame is 26 bytes: the command, the pattern, then the six
   * channels as little-endian words in h, s, v order, colour 1 in bytes 2..14
   * and colour 2 in bytes 14..26; each colour decodes back to its channels.
   */
  lemma FrameLayout(command: Byte, pattern: Byte, colorVals: seq<Word>)
    requires |colorVals| == ChannelCount
    ensures var f := SetPatternFrame(command, pattern, colorVals);
      |f| == FrameSize && f[0] == command && f[1] == pattern
      && (forall i :: 0 <= i < ChannelCount ==> f[2 + WordBytes * i .. 2 + WordBytes * i + WordBytes] == LeBytes(colorVals[i]))
      && f[2..14] == LeWords(colorVals[..3]) && f[14..26] == LeWords(colorVals[3..])
      && DecodeColor(f[2..14]) == colorVals[..3] && DecodeColor(f[14..26]) == colorVals[3..]
  {
    var f := SetPatternFrame(command, pattern, colorVals);
    var body := LeWords(colorVals);
    assert f[2..] == body;
    forall i | 0 <= i < ChannelCount
      ensures f[2 + WordBytes * i .. 2 + WordBytes * i + WordBytes] == LeBytes(colorVals[i])
    {
      LeWordsAt(colorVals, i);
      assert f[2 + WordBytes * i .. 2 + WordBytes * i + WordBytes] == body[WordBytes * i .. WordBytes * i + WordBytes];
    }
    assert colorVals == colorVals[..3] + colorVals[3..];
    LeWordsAppend(colorVals[..3], colorVals[3..]);
    assert f[2..14] == body[..12] && f[14..26] == body[12..];
    ColorRoundTrip(colorVals[..3]);
    ColorRoundTrip(colorVals[3..]);
  }

  /** Command 1 makes exactly one call on the port: the write of the SetPattern frame. */
  lemma SetPatternWritesFrame(pattern: Byte, colorVals: seq<Word>, dev: Device, t0: nat)
    requires |colorVals| == ChannelCount
    ensures var r := Exchange(SetPatternCommand, pattern, colorVals, dev, t0);
      |r.events| == 1 && r.events[0].Write? && r.outcome == Sent && r.finish == t0
      && var f := r.events[0].bytes;
      |f| == FrameSize && f[0] == SetPatternCommand && f[1] == pattern
      && DecodeColor(f[2..14]) == colorVals[..3] && DecodeColor(f[14..26]) == colorVals[3..]
  {
    FrameLayout(SetPatternCommand, pattern, colorVals);
  }

  /** Command 0 and every command other than 1 and 2 do nothing on the port or the clock. */
  lemma IdleIsSilent(command: Byte, pattern: Byte, colorVals: seq<Word>, dev: Device, t0: nat)
    requires |colorVals| == ChannelCount
    requires command != SetPatternCommand && command != QueryCommand
    ensures Exchange(command, pattern, colorVals, dev, t0) == Run([], NoOp, t0)
  {
  }

  // ---------------------------------------------------------------- poll loop

  /**
   * The poll phase starts with a clock check, only polls, reads and sleeps, and
   * time only moves forward: every clock reading is at least the starting one and
   * at most the final one, and each one is strictly later than the one before.
   */
  lemma {:induction false} PollLoopEvents(dev: Device, start: nat, now: nat)
    requires start <= now
    ensures var p := PollLoop(dev, start, now);
      |p.events| > 0 && p.events[0] == ClockRead(now) && now <= p.finish
      && (forall i :: 0 <= i < |p.events| ==> PollEvent(p.events[i]))
      && (forall i :: 0 <= i < |p.events| && p.events[i].ClockRead? ==> now <= p.events[i].at <= p.finish)
      && (forall i, j :: 0 <= i < j < |p.events| && p.events[i].ClockRead? && p.events[j].ClockRead? ==>
            p.events[i].at < p.events[j].at)
    decreases start + DeadlineMs - now
  {
    if now - start < DeadlineMs && !Ready(dev.available(now)) {
      var next := now + SleepLength(dev, now);
      PollLoopEvents(dev, start, next);
      var head := [ClockRead(now), BytesToRead(dev.available(now)), Slept(SleepLength(dev, now))];
      var rest := PollLoop(dev, start, next).events;
      var e := head + rest;
      assert PollLoop(dev, start, now).events == e;
      forall i | 0 <= i < |e|
        ensures PollEvent(e[i])
        ensures e[i].ClockRead? ==> now <= e[i].at <= PollLoop(dev, start, now).finish
      {
        if i >= 3 {
          assert e[i] == rest[i - 3];
        }
      }
      forall i, j | 0 <= i < j < |e| && e[i].ClockRead? && e[j].ClockRead?
        ensures e[i].at < e[j].at
      {
        assert j >= 3 && e[j] == rest[j - 3];
        if i >= 3 {
          assert e[i] == rest[i - 3];
        } else {
          assert i == 0 && e[i].at == now < next;
        }
      }
    }
  }

  /** In the poll loop `read_exact` is called at most once, last, and exactly when 26 bytes were reported. */
  lemma {:induction false} PollReadsOnlyWhenReady(dev: Device, start: nat, now: nat)
    requires start <= now
    ensures ReadsOnlyWhenReady(PollLoop(dev, start, now).events)
    decreases start + DeadlineMs - now
  {
    if now - start < DeadlineMs && !Ready(dev.available(now)) {
      var next := now + SleepLength(dev, now);
      PollReadsOnlyWhenReady(dev, start, next);
      var head := [ClockRead(now), BytesToRead(dev.available(now)), Slept(SleepLength(dev, now))];
      var rest := PollLoop(dev, start, next).events;
      var e := head + rest;
      assert PollLoop(dev, start, now).events == e;
      forall i | 0 <= i < |e| && e[i].ReadExact?
        ensures i == |e| - 1 && 0 < i && e[i - 1].BytesToRead? && Ready(e[i - 1].reply)
      {
        assert i > 3 && e[i] == rest[i - 3];
        assert e[i - 1] == rest[i - 4];
      }
      forall i | 0 <= i < |e| && e[i].BytesToRead? && Ready(e[i].reply)
        ensures i + 1 < |e| && e[i + 1].ReadExact?
      {
        assert i >= 3 && e[i] == rest[i - 3] && e[i + 1] == rest[i - 2];
      }
    }
  }

  /**
   * How the loop ends is read off its last event: a successful `read_exact`
   * (buffer full, which needs the 26 bytes to have arrived), a failed one, or a
   * clock check that found the deadline passed. Every earlier clock check was
   * inside the deadline, so the loop never gives up early.
   */
  lemma {:induction false} PollEnding(dev: Device, start: nat, now: nat)
    requires start <= now
    ensures var p := PollLoop(dev, start, now);
      |p.events| > 0
      && (p.end == BufferFull <==> Last(p.events) == ReadExact(true))
      && (p.end == ReadFailed <==> Last(p.events) == ReadExact(false))
      && (p.end == Expired <==> Last(p.events).ClockRead?)
      && (p.end == BufferFull ==> ReadOk(dev, ReplySize))
      && (p.end == Expired ==> Last(p.events) == ClockRead(p.finish) && p.finish >= start + DeadlineMs)
      && (forall i :: 0 <= i < |p.events| - 1 && p.events[i].ClockRead? ==> p.events[i].at < start + DeadlineMs)
    decreases start + DeadlineMs - now
  {
    if now - start < DeadlineMs && !Ready(dev.available(now)) {
      var next := now + SleepLength(dev, now);
      PollEnding(dev, start, next);
      var head := [ClockRead(now), BytesToRead(dev.available(now)), Slept(SleepLength(dev, now))];
      var rest := PollLoop(dev, start, next).events;
      var e := head + rest;
      assert PollLoop(dev, start, now).events == e;
      assert Last(e) == Last(rest);
      forall i | 0 <= i < |e| - 1 && e[i].ClockRead?
        ensures e[i].at < start + DeadlineMs
      {
        if i >= 3 {
          assert e[i] == rest[i - 3];
        }
      }
    }
  }

  /** If the device never reports 26 bytes, no read happens and the loop ends on the deadline. */
  lemma NeverReadyExpires(dev: Device, start: nat, now: nat)
    requires start <= now
    requires forall t :: !Ready(dev.available(t))
    ensures var p := PollLoop(dev, start, now);
      p.end == Expired && NoRead(p.events) && p.finish >= start + DeadlineMs
  {
    var e := PollLoop(dev, start, now).events;
    PollReadsOnlyWhenReady(dev, start, now);
    PollEnding(dev, start, now);
    forall i | 0 <= i < |e|
      ensures !e[i].ReadExact?
    {
      if e[i].ReadExact? {
        assert Ready(e[i - 1].reply);
        PollLoopEvents(dev, start, now);
        assert e[i - 1].reply == dev.available(e[i - 2].at) by {
          PollProbesNow(dev, start, now, i - 1);
        }
      }
    }
  }

  /** Every `bytes_to_read` in the loop is answered for the clock reading just before it. */
  lemma {:induction false} PollProbesNow(dev: Device, start: nat, now: nat, i: nat)
    requires start <= now
    requires i < |PollLoop(dev, start, now).events| && PollLoop(dev, start, now).events[i].BytesToRead?
    ensures var e := PollLoop(dev, start, now).events;
      0 < i && e[i - 1].ClockRead? && e[i].reply == dev.available(e[i - 1].at)
    decreases start + DeadlineMs - now
  {
    if now - start < DeadlineMs && !Ready(dev.available(now)) && i >= 3 {
      var next := now + SleepLength(dev, now);
      var rest := PollLoop(dev, start, next).events;
      assert PollLoop(dev, start, now).events[i] == rest[i - 3];
      PollProbesNow(dev, start, next, i - 3);
      assert PollLoop(dev, start, now).events[i - 1] == rest[i - 4];
    }
  }

  /**
   * On the whole-millisecond clock a timeout is at most one oversleep late: when no
   * sleep overruns its 1 ms by more than `slack`, the expiring clock check comes at
   * or after the deadline and no later than `start + 10000 + slack`; with exact
   * sleeps (`slack == 0`) exactly on it.
   */
  lemma {:induction false} TimeoutLateness(dev: Device, start: nat, now: nat, slack: nat)
    requires start <= now <= start + DeadlineMs + slack
    requires forall t :: dev.oversleep(t) <= slack
    ensures var p := PollLoop(dev, start, now);
      p.end == Expired ==> start + DeadlineMs <= p.finish <= start + DeadlineMs + slack
    decreases start + DeadlineMs - now
  {
    PollEnding(dev, start, now);
    if now - start < DeadlineMs && !Ready(dev.available(now)) {
      TimeoutLateness(dev, start, now + SleepLength(dev, now), slack);
    }
  }

  // ---------------------------------------------------------------- query

  /**
   * Command 2 clears the input buffer, drops RTS, writes exactly the one byte 2,
   * starts the deadline, raises RTS and then only polls: no other clear, RTS
   * change or write follows, and the first poll-phase event is the elapsed check.
   */
  lemma QueryHandshake(pattern: Byte, colorVals: seq<Word>, dev: Device, t0: nat)
    requires |colorVals| == ChannelCount
    ensures var e := Exchange(QueryCommand, pattern, colorVals, dev, t0).events;
      |e| > 5
      && e[..5] == [ClearInput, SetRts(false), Write([QueryCommand]), ClockRead(t0), SetRts(true)]
      && e[5] == ClockRead(t0)
      && forall i :: 5 <= i < |e| ==> PollEvent(e[i])
  {
    var p := PollLoop(dev, t0, t0).events;
    var e := QuerySetup(t0) + p;
    PollLoopEvents(dev, t0, t0);
    forall i | 5 <= i < |e|
      ensures PollEvent(e[i])
    {
      assert e[i] == p[i - 5];
    }
  }

  /** Over the whole query `read_exact` happens at most once, last, and only after 26 bytes were reported. */
  lemma QueryReadsOnlyWhenReady(pattern: Byte, colorVals: seq<Word>, dev: Device, t0: nat)
    requires |colorVals| == ChannelCount
    ensures ReadsOnlyWhenReady(Exchange(QueryCommand, pattern, colorVals, dev, t0).events)
  {
    var p := PollLoop(dev, t0, t0).events;
    var e := QuerySetup(t0) + p;
    PollReadsOnlyWhenReady(dev, t0, t0);
    PollLoopEvents(dev, t0, t0);
    forall i | 0 <= i < |e| && e[i].ReadExact?
      ensures i == |e| - 1 && 0 < i && e[i - 1].BytesToRead? && Ready(e[i - 1].reply)
    {
      assert i >= 5 && e[i] == p[i - 5];
      assert i > 5 by { assert p[0].ClockRead?; }
      assert e[i - 1] == p[i - 6];
    }
    forall i | 0 <= i < |e| && e[i].BytesToRead? && Ready(e[i].reply)
      ensures i + 1 < |e| && e[i + 1].ReadExact?
    {
      assert i >= 5 && e[i] == p[i - 5] && e[i + 1] == p[i - 4];
    }
  }

  /**
   * The query reports success exactly when `read_exact` returned Ok, and then the
   * pattern is byte 0 of the reply, colour 1 decodes bytes 1..13 and colour 2
   * bytes 13..25. A failed read reports a read error and a deadline with no read
   * reports a timeout, no earlier than 10 s after the deadline started; nothing
   * else can come out of a query.
   */
  lemma QueryOutcome(pattern: Byte, colorVals: seq<Word>, dev: Device, t0: nat)
    requires |colorVals| == ChannelCount
    ensures var r := Exchange(QueryCommand, pattern, colorVals, dev, t0);
      |r.events| > 0
      && (r.outcome.Success? || r.outcome == ReadError || r.outcome == Timeout)
      && (r.outcome.Success? <==> Last(r.events) == ReadExact(true))
      && (r.outcome.Success? ==>
            |dev.received| >= ReplySize
            && r.outcome == Success(dev.received[0], DecodeColor(dev.received[1..13]), DecodeColor(dev.received[13..25])))
      && (r.outcome == ReadError <==> Last(r.events) == ReadExact(false))
      && (r.outcome == Timeout <==> Last(r.events).ClockRead?)
      && (r.outcome == Timeout ==> NoRead(r.events) && r.finish >= t0 + DeadlineMs)
  {
    var p := PollLoop(dev, t0, t0);
    var e := QuerySetup(t0) + p.events;
    PollEnding(dev, t0, t0);
    PollReadsOnlyWhenReady(dev, t0, t0);
    assert Last(e) == Last(p.events);
    if p.end == Expired {
      forall i | 0 <= i < |e|
        ensures !e[i].ReadExact?
      {
        if i >= 5 {
          assert e[i] == p.events[i - 5];
        }
      }
    }
  }

  /**
   * A device that never reports 26 bytes gets a timeout and no read, on or after
   * the 10 s deadline and at most one (whole-millisecond) oversleep past it.
   */
  lemma QueryNeverReady(pattern: Byte, colorVals: seq<Word>, dev: Device, t0: nat, slack: nat)
    requires |colorVals| == ChannelCount
    requires forall t :: !Ready(dev.available(t))
    requires forall t :: dev.oversleep(t) <= slack
    ensures var r := Exchange(QueryCommand, pattern, colorVals, dev, t0);
      r.outcome == Timeout && NoRead(r.events)
      && t0 + DeadlineMs <= r.finish <= t0 + DeadlineMs + slack
  {
    NeverReadyExpires(dev, t0, t0);
    TimeoutLateness(dev, t0, t0, slack);
    QueryOutcome(pattern, colorVals, dev, t0);
  }

  // ---------------------------------------------------------------- reply frame

  /**
   * A reply laid out as `[pattern][colour 1][colour 2][spare]` decodes to that
   * pattern and those colours, whatever the spare byte 25 holds.
   */
  lemma ReplyRoundTrip(pattern: Byte, color1: seq<Word>, color2: seq<Word>, spare: Byte)
    requires |color1| == ColorWords && |color2| == ColorWords
    ensures var buf := [pattern] + LeWords(color1) + LeWords(color2) + [spare];
      |buf| == ReplySize && DecodeReply(buf) == Success(pattern, color1, color2)
  {
    var buf := [pattern] + LeWords(color1) + LeWords(color2) + [spare];
    assert buf[1..13] == LeWords(color1);
    assert buf[13..25] == LeWords(color2);
    ColorRoundTrip(color1);
    ColorRoundTrip(color2);
  }

  /** Byte 25 of the reply is never interpreted. */
  lemma ReplyIgnoresSpare(buf: seq<Byte>, spare: Byte)
    requires |buf| == ReplySize
    ensures DecodeReply(buf[..25] + [spare]) == DecodeReply(buf)
  {
    var other := buf[..25] + [spare];
    assert other[1..13] == buf[1..13];
    assert other[13..25] == buf[13..25];
  }
}
