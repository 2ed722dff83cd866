# USB LED client — command protocol model

A Dafny model of `usb-leds-client`, a small command-line tool. It finds a
USB-serial lighting controller by its USB serial number and exchanges fixed-size
binary frames with it. Command 1 (SetPattern) sets a pattern and two HSV colours.
Command 2 (Query) reads back the current pattern and colours. Every other command
does nothing.

The model has four modules:

- `ColorCodec` (`color_codec.dfy`): colour channels as 32-bit words, their
  little-endian bytes (`to_le_bytes` / `from_le_bytes`), and `parse_color` as a
  loop over a local array, proved against `DecodeColor`.
- `CommandExchange` (`exchange.dfy`): the SetPattern frame; the `Link` class, an
  open serial port plus the host clock that records every call in a `trace` of
  events; the query's poll loop; and `send_command`. The methods are proved
  against the reference functions `PollLoop` (the poll loop, recursive on the
  time left before the deadline) and `Exchange` (a whole call).
- `ExchangeProperties` (`exchange_properties.dfy`): what the protocol guarantees,
  proved about those reference functions.
- `Cli` (`cli.dfy`): `main`'s argument defaulting and port selection.

Colour channels are f32 values in the program, but the program only moves their
bits around. So each channel is its IEEE-754 bit pattern (`bv32`), and +0.0 is
the zero word. This makes the round trips and field offsets exact.

The device and the clock are one `Device` value:

- what `bytes_to_read` answers at each clock reading (`None` for an error);
- how far past the requested 1 ms each sleep runs;
- the bytes the line delivers to `read_exact`;
- whether `read_exact` reports an I/O error.

Time passes only in sleeps, and each sleep lasts at least 1 ms.

Four details of the program that the model keeps:

- The 10 s deadline starts after the query byte is written, just before RTS is
  raised, not before the write.
- `parse_color` does not need 12 bytes. It decodes whatever whole 4-byte chunks
  exist among the first three and leaves the other slots at +0.0. A short chunk
  among the first three would make it panic on an index, so
  `ParseColor` requires `WholeChunks`.
- A query times out on the first clock check at or past the deadline. On the
  model's whole-millisecond clock that check is at most the largest oversleep
  late (`TimeoutLateness`), and exact sleeps make it expire exactly on the
  deadline (`QueryNeverReady`).
- A failed `read_exact` also leaves `buffer_full` false, so the program prints
  "timeout reached" after the error message. The model reports that case as its
  own outcome, `ReadError`, distinct from `Timeout`.

## Model

| member | source | states |
|---|---|---|
| `ColorCodec.LeBytes` | src/main.rs:17-22 | a channel is split into exactly four bytes |
| `ColorCodec.WordRoundTrip` | src/main.rs:11-22 | `from_le_bytes` of `to_le_bytes` gives the word back bit for bit |
| `ColorCodec.BytesRoundTrip` | src/main.rs:11-22 | `to_le_bytes` of `from_le_bytes` gives the four bytes back |
| `ColorCodec.LeWords` | src/main.rs:34-43 | the channels laid end to end take four bytes each |
| `ColorCodec.LeWordsAt` | src/main.rs:37-42 | channel `i` occupies bytes `4i..4i+4` of the laid-out channels |
| `ColorCodec.LeWordsAppend` | src/main.rs:37-42 | laying out two runs of channels is laying out each in turn |
| `ColorCodec.ParseColor` | src/main.rs:7-14 | the chunk loop with its break after index 2 computes `DecodeColor`: slot `i` is chunk `i` read little-endian, or +0.0 when there is no chunk `i` |
| `ColorCodec.DecodeLeWords` | src/main.rs:7-22 | decoding the bytes of up to three channels gives those channels back, and the remaining slots are +0.0 |
| `ColorCodec.ColorRoundTrip` | src/main.rs:7-22 | decoding the 12 bytes of three channels gives the same three channels |
| `ColorCodec.DecodeIgnoresTail` | src/main.rs:9-10 | at most three chunks are read: bytes past the twelfth never change the result |
| `CommandExchange.Link.ClearInput` | src/main.rs:47 | clearing the input buffer is recorded and takes no time |
| `CommandExchange.Link.SetRts` | src/main.rs:49-54 | an RTS change is recorded with its level |
| `CommandExchange.Link.Write` | src/main.rs:34-50 | a write is recorded with exactly the bytes handed to it |
| `CommandExchange.Link.Now` | src/main.rs:52-56 | a clock reading returns the current time and is recorded |
| `CommandExchange.Link.BytesToRead` | src/main.rs:59 | `bytes_to_read` answers what the device has at the current time, possibly an error |
| `CommandExchange.Link.ReadExact` | src/main.rs:62 | `read_exact` succeeds exactly when there is no I/O error and enough bytes arrived, and then fills the whole buffer with them |
| `CommandExchange.Link.Sleep` | src/main.rs:72 | a sleep advances the clock by the requested time plus the device's oversleep |
| `CommandExchange.PollFullMeansRead` | src/main.rs:62-65 | the loop ends with a full buffer only if `read_exact` could deliver 26 bytes |
| `CommandExchange.DecodeReplyPrefix` | src/main.rs:77-79 | only the 26 bytes read into the buffer decide the reply |
| `CommandExchange.PollRound` | src/main.rs:56-72 | one loop round either breaks (timeout, or after the single `read_exact`) with the trace and flags `PollLoop` gives, or adds one round's events and advances the clock |
| `CommandExchange.PollUntilFull` | src/main.rs:53-73 | the poll loop leaves exactly the trace, clock and `buffer_full` / read-error flags of `PollLoop`; a full buffer holds the first 26 bytes received |
| `CommandExchange.Query` | src/main.rs:45-85 | the query writes the handshake `QuerySetup` and then the poll-loop events, and reports what the buffer decodes to, a read error or a timeout |
| `CommandExchange.SendCommand` | src/main.rs:31-87 | `send_command` on an open port performs exactly `Exchange`: the trace, the final clock and the outcome |
| `ExchangeProperties.FrameLayout` | src/main.rs:34-43 | the SetPattern frame is 26 bytes: command, pattern, then channel `i` at bytes `2+4i..6+4i`; colour 1 is bytes 2..14 and colour 2 is bytes 14..26, and each decodes back to its channels |
| `ExchangeProperties.SetPatternWritesFrame` | src/main.rs:33-44 | command 1 makes one call, a write of the 26-byte frame starting `1, pattern`, and takes no time |
| `ExchangeProperties.IdleIsSilent` | src/main.rs:31-32 | command 0 and every other command except 1 and 2 make no call on the port and read no clock |
| `ExchangeProperties.PollLoopEvents` | src/main.rs:55-73 | the poll phase starts with a clock check and contains no clear, RTS change or write; every clock reading lies between the start and the finish and is strictly later than the one before |
| `ExchangeProperties.PollReadsOnlyWhenReady` | src/main.rs:59-71 | in the loop `read_exact` is called at most once, as the last event, right after a poll reporting at least 26 bytes (an error counting as 0), and every such poll is followed by it |
| `ExchangeProperties.PollEnding` | src/main.rs:55-73 | the loop ends with a full buffer iff the read succeeded, with a failure iff it failed, and by timeout iff the last event is a clock check at or past the 10 s deadline; every earlier clock check was inside the deadline |
| `ExchangeProperties.PollProbesNow` | src/main.rs:55-59 | every poll answers for the clock reading taken just before it |
| `ExchangeProperties.NeverReadyExpires` | src/main.rs:55-72 | a device that never reports 26 bytes gets no read, and the loop ends by timeout at or after the deadline |
| `ExchangeProperties.TimeoutLateness` | src/main.rs:56-72 | on the whole-millisecond clock the expiring check comes at or after the deadline and at most the largest oversleep past it, so exactly on it when sleeps last exactly 1 ms |
| `ExchangeProperties.QueryHandshake` | src/main.rs:46-55 | command 2 clears input, drops RTS, writes exactly the byte 2, reads the clock to start the deadline, raises RTS, and then only polls |
| `ExchangeProperties.QueryReadsOnlyWhenReady` | src/main.rs:59-71 | across the whole query `read_exact` is called at most once, last, and only after at least 26 bytes were reported |
| `ExchangeProperties.QueryOutcome` | src/main.rs:62-84 | a query succeeds iff `read_exact` returned Ok, and then reports byte 0, bytes 1..13 and bytes 13..25 decoded; a failed read is a read error; a timeout has no read and comes no earlier than 10 s after the start |
| `ExchangeProperties.QueryNeverReady` | src/main.rs:55-83 | with a device that never has 26 bytes the query times out with no read, on the whole-millisecond clock between 10 s and 10 s plus the largest oversleep after the start |
| `ExchangeProperties.ReplyRoundTrip` | src/main.rs:77-79 | a reply `[pattern][colour 1][colour 2][spare]` decodes to that pattern and those colours |
| `ExchangeProperties.ReplyIgnoresSpare` | src/main.rs:77-79 | byte 25 of the reply is never interpreted |
| `Cli.MatchingConcat` | src/main.rs:106-122 | port selection keeps enumeration order: selecting from a concatenation gives the two selections one after the other |
| `Cli.MatchingMembers` | src/main.rs:107-113 | a port is selected iff it was enumerated, is a USB port, and reports `Some` serial number equal to the first argument |
| `Cli.ParseColorArgs` | src/main.rs:98-102 | the colour loop fills channel `i` from argument `4+i`, parsed (a failed parse reads as +0.0) and clamped, and channels with no argument stay +0.0 |
| `Cli.ColorArgsBounds` | src/main.rs:98-102 | missing colour arguments give +0.0, and arguments past the tenth are never read |
| `Cli.ByteArgDefaults` | src/main.rs:93-96 | command and pattern are 0 when the argument is missing or does not parse, and otherwise the parsed byte |
| `Cli.ReachedAllOpen` | src/main.rs:25 | when every selected port opens, `send_command` reaches all of them |
| `Cli.ReachedStopsAtFailure` | src/main.rs:25 | the first selected port that fails to open is the last one reached |
| `Cli.PanicReachesUpTo` | src/main.rs:24-25 | a selected port that fails to open after every earlier selected port opened ends the calls with itself |
| `Cli.Run` | src/main.rs:90-129 | `main` calls `send_command` for each selected port, in enumeration order, each time with the same defaulted command, pattern and channels, until a port fails to open: that call panics on the `unwrap` of its open and ends `main`, and `panicked` is set iff some selected port fails to open; an enumeration error makes no call |

## Left out

- Floating point: channels are opaque f32 bit patterns. `f32::from_str` and the clamp `.max(0.0).min(1.0)` are function parameters of `Cli.Run`, so NaN handling and rounding are not modelled.
- Opening the port by name at 115200 baud, and hardware flow control: `send_command` starts from a `Link` that is already open. Whether an open succeeds is the parameter `opens` of `Cli.Run`, and a failed open is modelled only as the panic that stops `main`.
- Real time and `sleep`: these become the clock of `Link`. The clock counts whole milliseconds, and only sleeps advance it, by at least 1 ms each. Time spent inside port calls is not modelled.
- ExchangeProperties.TimeoutLateness and ExchangeProperties.QueryNeverReady: the clock counts whole milliseconds, so oversleeps are whole milliseconds too. In the program `Instant` is finer, and the expiring check can be late by up to one whole sleep (1 ms plus its overrun).
- Port enumeration via `available_ports`: the port list is an input, and `None` stands for the error branch. The text printed on error is not modelled.
- `println!` / `eprintln!` output: results are the returned `Outcome` instead. Both the read-error and timeout paths print "timeout reached"; the model gives them distinct outcomes.
- `u8::from_str_radix` internals: it is a parser passed as a parameter, with the `unwrap_or(0)` default applied after it.
- How many bytes `write` reports: the count is discarded, so a short write goes unnoticed. The trace records the bytes handed to `write`, not how many were sent.
- The contents of the reply buffer after a failed `read_exact` are left unspecified. The program never uses them.
