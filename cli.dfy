/**
 * The command line of the USB LED client (`main`): default the arguments, then
 * call `send_command` once for every USB port whose serial number matches.
 */
module Cli {
  import opened Options
  import opened ColorCodec
  import opened CommandExchange

  /** What the port enumeration says about a USB port; only the serial number matters here. */
  datatype UsbPortInfo = UsbPortInfo(serialNumber: Option<string>)

  datatype PortType = UsbPort(info: UsbPortInfo) | BluetoothPort | PciPort | Unknown

  /** One enumerated serial port. */
  datatype PortInfo = PortInfo(portName: string, portType: PortType)

  /** One call of `send_command` made by `main`. */
  datatype Invocation = Invocation(command: Byte, pattern: Byte, colorVals: seq<Word>, portName: string)

  /** A port is used when it is a USB port reporting exactly the requested serial number. */
  predicate Selected(p: PortInfo, serial: string) {
    p.portType.UsbPort? && p.portType.info.serialNumber == Some(serial)
  }

  /** The selected ports, in enumeration order. */
  function Matching(ports: seq<PortInfo>, serial: string): seq<PortInfo>
  {
    if |ports| == 0 then []
    else
      var last := ports[|ports| - 1];
      Matching(ports[..|ports| - 1], serial) + if Selected(last, serial) then [last] else []
  }

  /** Selection keeps order: the ports of a longer list are matched after those of its prefix. */
  lemma {:induction false} MatchingConcat(ps: seq<PortInfo>, qs: seq<PortInfo>, serial: string)
    ensures Matching(ps + qs, serial) == Matching(ps, serial) + Matching(qs, serial)
    decreases |qs|
  {
    if |qs| == 0 {
      assert ps + qs == ps;
    } else {
      var init := qs[..|qs| - 1];
      assert (ps + qs)[..|ps + qs| - 1] == ps + init;
      MatchingConcat(ps, init, serial);
    }
  }

  /** A port is matched if and only if it was enumerated and is selected. */
  lemma {:induction false} MatchingMembers(ports: seq<PortInfo>, serial: string)
    ensures forall p :: p in Matching(ports, serial) <==> p in ports && Selected(p, serial)
  {
    if |ports| > 0 {
      var init := ports[..|ports| - 1];
      MatchingMembers(init, serial);
      assert ports == init + [ports[|ports| - 1]];
    }
  }

  /** `env::args().nth(n).unwrap_or(default)`; `args[0]` is the program name. */
  function ArgOr(args: seq<string>, n: nat, default: string): string {
    if n < |args| then args[n] else default
  }

  /** `u8::from_str_radix(&args.nth(n).unwrap_or("0"), 10).unwrap_or(0)`, with the parser given. */
  function ByteArg(args: seq<string>, n: nat, parseU8: string -> Option<Byte>): Byte {
    parseU8(ArgOr(args, n, "0")).GetOr(0)
  }

  /**
   * Channel `i` of the colour arguments: argument `4 + i` parsed and clamped
   * (an unparsable one reads as +0.0 before clamping), or +0.0 when absent.
   */
  function ColorArg(args: seq<string>, i: nat, parseF32: string -> Option<Word>, clamp: Word -> Word): Word {
    if 4 + i < |args| then clamp(parseF32(args[4 + i]).GetOr(Zero)) else Zero
  }

  /** The six channels `main` hands to `send_command`. */
  function ColorArgs(args: seq<string>, parseF32: string -> Option<Word>, clamp: Word -> Word): seq<Word> {
    seq(ChannelCount, i requires 0 <= i < ChannelCount => ColorArg(args, i, parseF32, clamp))
  }

  /** The colour loop of `main`: at most six arguments from the fourth on fill `color_vals`. */
  method ParseColorArgs(args: seq<string>, parseF32: string -> Option<Word>, clamp: Word -> Word)
    returns (colorVals: seq<Word>)
    ensures colorVals == ColorArgs(args, parseF32, clamp)
  {
    var vals := new Word[ChannelCount](_ => Zero);
    var index := 0;
    while 4 + index < |args|
      invariant index <= ChannelCount
      invariant index == 0 || 4 + index <= |args|
      invariant forall k :: 0 <= k < ChannelCount ==>
        vals[k] == if k < index then ColorArg(args, k, parseF32, clamp) else Zero
    {
      if index > 5 { break; }
      vals[index] := clamp(parseF32(args[4 + index]).GetOr(Zero));
      index := index + 1;
    }
    colorVals := vals[..];
  }

  /** Missing colour arguments leave their channels at +0.0, and arguments past the tenth are never read. */
  lemma ColorArgsBounds(args: seq<string>, parseF32: string -> Option<Word>, clamp: Word -> Word)
    ensures forall i :: 0 <= i < ChannelCount && |args| <= 4 + i ==> ColorArgs(args, parseF32, clamp)[i] == Zero
    ensures |args| > 4 + ChannelCount ==>
      ColorArgs(args, parseF32, clamp) == ColorArgs(args[..4 + ChannelCount], parseF32, clamp)
  {
  }

  /** Command and pattern are 0 when the argument is missing or does not parse (given that "0" parses to 0). */
  lemma ByteArgDefaults(args: seq<string>, n: nat, parseU8: string -> Option<Byte>)
    requires parseU8("0") == Some(0)
    ensures n >= |args| ==> ByteArg(args, n, parseU8) == 0
    ensures n < |args| && parseU8(args[n]).None? ==> ByteArg(args, n, parseU8) == 0
    ensures n < |args| && parseU8(args[n]).Some? ==> ByteArg(args, n, parseU8) == parseU8(args[n]).value
  {
  }

  /**
   * The selected ports that `send_command` is called on, given which port names
   * open: the open at the start of `send_command` unwraps its result, so the
   * first port that fails to open panics and ends `main`, and no later port is reached.
   */
  function Reached(selected: seq<PortInfo>, opens: string -> bool): seq<PortInfo>
  {
    if |selected| == 0 then []
    else if opens(selected[0].portName) then [selected[0]] + Reached(selected[1..], opens)
    else [selected[0]]
  }

  /** When every selected port opens, all of them are reached. */
  lemma {:induction false} ReachedAllOpen(selected: seq<PortInfo>, opens: string -> bool)
    requires forall k :: 0 <= k < |selected| ==> opens(selected[k].portName)
    ensures Reached(selected, opens) == selected
  {
    if |selected| > 0 {
      ReachedAllOpen(selected[1..], opens);
    }
  }

  /** The reached ports are the ports up to and including the first that fails to open. */
  lemma {:induction false} ReachedStopsAtFailure(openedPorts: seq<PortInfo>, failed: PortInfo, later: seq<PortInfo>,
                                                 opens: string -> bool)
    requires forall k :: 0 <= k < |openedPorts| ==> opens(openedPorts[k].portName)
    requires !opens(failed.portName)
    ensures Reached(openedPorts + [failed] + later, opens) == openedPorts + [failed]
  {
    if |openedPorts| > 0 {
      assert (openedPorts + [failed] + later)[1..] == openedPorts[1..] + [failed] + later;
      ReachedStopsAtFailure(openedPorts[1..], failed, later, opens);
    }
  }

  /**
   * `main`: default the arguments, then for each enumerated port, in order, call
   * `send_command` when it is a USB port with the requested serial number. An
   * enumeration error (`None`) makes no call. `opens` says which port names open;
   * a failed open panics inside that call, so `panicked` is set and the loop stops.
   * Returns the calls made, the panicking one last.
   */
  method Run(args: seq<string>, ports: Option<seq<PortInfo>>,
             parseU8: string -> Option<Byte>, parseF32: string -> Option<Word>, clamp: Word -> Word,
             opens: string -> bool)
    returns (calls: seq<Invocation>, panicked: bool)
    ensures ports.None? ==> calls == [] && !panicked
    ensures ports.Some? ==>
      var selected := Matching(ports.value, ArgOr(args, 1, ""));
      var reached := Reached(selected, opens);
      |calls| == |reached|
      && (forall k :: 0 <= k < |calls| ==>
           calls[k] == Invocation(ByteArg(args, 2, parseU8), ByteArg(args, 3, parseU8),
                                  ColorArgs(args, parseF32, clamp), reached[k].portName))
      && (panicked <==> exists k :: 0 <= k < |selected| && !opens(selected[k].portName))
  {
    var serial := ArgOr(args, 1, "");
    var command := parseU8(ArgOr(args, 2, "0")).GetOr(0);
    var pattern := parseU8(ArgOr(args, 3, "0")).GetOr(0);
    var colorVals := ParseColorArgs(args, parseF32, clamp);
    calls, panicked := [], false;
    match ports {
      case None =>
      case Some(ps) =>
        var i := 0;
        while i < |ps|
          invariant i <= |ps|
          invariant |calls| == |Matching(ps[..i], serial)|
          invariant forall k :: 0 <= k < |calls| ==>
            calls[k] == Invocation(command, pattern, colorVals, Matching(ps[..i], serial)[k].portName)
            && opens(Matching(ps[..i], serial)[k].portName)
          invariant !panicked
        {
          var p := ps[i];
          match p.portType {
            case UsbPort(info) =>
              match info.serialNumber {
                case Some(s) =>
                  if s == serial {
                    calls := calls + [Invocation(command, pattern, colorVals, p.portName)];
                    if !opens(p.portName) {
                      panicked := true;
                      PanicReachesUpTo(ps, i, serial, opens);
                      break;
                    }
                  }
                case None =>
              }
            case BluetoothPort =>
            case PciPort =>
            case Unknown =>
          }
          assert ps[..i + 1][..i] == ps[..i];
          i := i + 1;
        }
        if !panicked {
          assert ps[..i] == ps;
          ReachedAllOpen(Matching(ps, serial), opens);
        }
    }
  }

  /**
   * If every selected port before position `i` opens and port `i` is selected but
   * does not open, the reached ports end with port `i`, and a failing port exists.
   */
  lemma PanicReachesUpTo(ps: seq<PortInfo>, i: nat, serial: string, opens: string -> bool)
    requires i < |ps| && Selected(ps[i], serial) && !opens(ps[i].portName)
    requires forall k :: 0 <= k < |Matching(ps[..i], serial)| ==> opens(Matching(ps[..i], serial)[k].portName)
    ensures Reached(Matching(ps, serial), opens) == Matching(ps[..i], serial) + [ps[i]]
    ensures exists k :: 0 <= k < |Matching(ps, serial)| && !opens(Matching(ps, serial)[k].portName)
  {
    var before := Matching(ps[..i], serial);
    var later := Matching(ps[i + 1..], serial);
    assert ps == ps[..i] + ([ps[i]] + ps[i + 1..]);
    MatchingConcat(ps[..i], [ps[i]] + ps[i + 1..], serial);
    MatchingConcat([ps[i]], ps[i + 1..], serial);
    assert Matching([ps[i]], serial) == [ps[i]] by {
      assert [ps[i]][..0] == [];
    }
    assert Matching(ps, serial) == before + [ps[i]] + later;
    ReachedStopsAtFailure(before, ps[i], later, opens);
    assert Matching(ps, serial)[|before|] == ps[i];
  }
}
