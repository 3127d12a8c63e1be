/**
 * The LAWICEL (SLCAN) command layer as values: the session globals, what
 * one command line does to them, and how the serial framer cuts the byte
 * stream into command lines.
 */
module Protocol {
  import opened Options
  import opened Hex
  import opened Frames

  /** The NACK byte, '\a'. */
  const BEL: char := '\U{7}'

  /** slcan_ack writes "Z" CR; slcan_nack writes BEL. */
  const Ack: seq<char> := "Z\r"
  const Nack: seq<char> := [BEL]

  /** Serial.println() ends a line with CR LF. */
  const NewLine: seq<char> := "\r\n"

  /** Size of the static command buffer. */
  const BufferSize: nat := 32

  /** The bit rates of the timing profiles S0..S8 select; profile 0 (10 kbit/s) is the start-up one. */
  const BitRates: seq<nat> := [10000, 25000, 50000, 100000, 125000, 250000, 500000, 800000, 1000000]

  /** The accept-all filter's acceptance mask; its acceptance code is 0. */
  const AcceptAllMask: nat := 0xFFFF_FFFF

  /**
   * The globals a command can change: the open flag `slcan`, the line-feed
   * option `cr`, the timestamp option, the timing profile (an index into
   * BitRates) and the acceptance code and mask of the filter configuration.
   */
  datatype Session = Session(slcan: bool, cr: bool, timestamp: bool, speed: nat, code: nat, mask: nat)

  /** The start-up values: open, no line feed, no timestamps, 10 kbit/s, accept all. */
  const Initial: Session := Session(true, false, false, 0, 0, AcceptAllMask)

  /**
   * What a command asks of the CAN controller: start_can with the current
   * timing and filter configuration, stop_can, or one queued transmission.
   */
  datatype BusEvent = StartCan(speed: nat, code: nat, mask: nat) | StopCan | Transmit(frame: Frame)

  /** The effect of one command: the new session, the bytes written to the serial port, the bus requests. */
  datatype Step = Step(session: Session, out: seq<char>, events: seq<BusEvent>)

  /** What the framer hands to the dispatcher: a non-empty line ending in CR. */
  predicate IsCommandLine(line: seq<char>)
  {
    |line| >= 1 && line[|line| - 1] == CR
  }

  /** The verbs the dispatcher knows. */
  predicate IsVerb(c: char)
  {
    c in "OCtTrRZMmSFVNlh"
  }

  // ---------------------------------------------------------------- commands

  /** changeCANSpeed: ignored while open; S0..S8 select a profile and ACK; any other digit NACKs. */
  function ChangeSpeed(s: Session, arg: char): (r: Step)
    ensures r.events == [] && r.session.slcan == s.slcan
    ensures r.session.speed < |BitRates| || r.session.speed == s.speed
  {
    if s.slcan then Step(s, [], [])
    else if '0' <= arg <= '8' then Step(s.(speed := arg as int - '0' as int), Ack, [])
    else Step(s, Nack, [])
  }

  /**
   * changeCANFilter: ignored while open; otherwise the eight hex digits
   * that follow replace the acceptance mask or code, which keeps its value
   * when they do not scan.
   */
  function ChangeFilter(s: Session, args: seq<char>, mask: bool): (r: Session)
    ensures r.slcan == s.slcan && r.cr == s.cr && r.timestamp == s.timestamp && r.speed == s.speed
    ensures r.code < 0x1_0000_0000 || r.code == s.code
    ensures r.mask < 0x1_0000_0000 || r.mask == s.mask
  {
    if s.slcan then s
    else
      var v := ScanHex(args, 0, 8);
      Pow16Values();
      if mask then s.(mask := v.GetOr(s.mask)) else s.(code := v.GetOr(s.code))
  }

  /**
   * send_canmsg and its reply: nothing is queued while closed or when the
   * DLC digit exceeds 8 (NACK); otherwise the decoded frame is queued and
   * the reply is ACK exactly when the driver accepts it.
   */
  function SendFrame(s: Session, args: seq<char>, ext: bool, rtr: bool, txOk: bool): (r: Step)
    ensures r.session == s && |r.events| <= 1
    ensures r.out == Ack || r.out == Nack
  {
    if !s.slcan then Step(s, Nack, [])
    else
      match Decode(args, ext, rtr)
      case None => Step(s, Nack, [])
      case Some(f) => Step(s, if txOk then Ack else Nack, [Transmit(f)])
  }

  /** SendFrame when the frame is queued. */
  lemma SendQueued(s: Session, args: seq<char>, ext: bool, rtr: bool, txOk: bool, f: Frame)
    requires s.slcan && Decode(args, ext, rtr) == Some(f)
    ensures SendFrame(s, args, ext, rtr, txOk) == Step(s, if txOk then Ack else Nack, [Transmit(f)])
  {
  }

  /** SendFrame when nothing is queued: the session is closed or the DLC digit exceeds 8. */
  lemma SendRefused(s: Session, args: seq<char>, ext: bool, rtr: bool, txOk: bool)
    requires !s.slcan || ScanHex(args, IdDigits(ext), 1).GetOr(0) > 8
    ensures SendFrame(s, args, ext, rtr, txOk) == Step(s, Nack, [])
  {
  }

  /** Lines written with Serial.println, each ended by CR LF. */
  function Println(lines: seq<seq<char>>): (r: seq<char>)
    ensures |r| >= 2 * |lines|
    ensures lines != [] ==> r[|r| - 2..] == NewLine
    decreases |lines|
  {
    if lines == [] then []
    else
      var rest := Println(lines[1..]);
      assert rest != [] ==> (lines[0] + NewLine + rest)[|lines[0] + NewLine + rest| - 2..] == rest[|rest| - 2..];
      lines[0] + NewLine + rest
  }

  /** The text the h command prints before its NACK; the last line has no bit-rate figure. */
  function HelpText(s: Session): (r: seq<char>)
    ensures |r| >= 2 * 27 && r[|r| - 2..] == NewLine
  {
    Println([
      "",
      "esp32-slcan",
      "",
      "O\t=\tStart slcan",
      "C\t=\tStop slcan",
      "t\t=\tSend std frame",
      "r\t=\tSend std rtr frame",
      "T\t=\tSend ext frame",
      "R\t=\tSend ext rtr frame",
      "Z0\t=\tTimestamp Off",
      "Z1\t=\tTimestamp On" + (if s.timestamp then "  ON" else ""),
      "S0\t=\tSpeed 10k",
      "S1\t=\tSpeed 25k",
      "S2\t=\tSpeed 50k",
      "S3\t=\tSpeed 100k",
      "S4\t=\tSpeed 125k",
      "S5\t=\tSpeed 250k",
      "S6\t=\tSpeed 500k",
      "S7\t=\tSpeed 800k",
      "S8\t=\tSpeed 1000k",
      "F\t=\tFlags        N/A",
      "N\t=\tSerial No",
      "V\t=\tVersion",
      "-----NOT SPEC-----",
      "h\t=\tHelp",
      "l\t=\tToggle CR " + (if s.cr then "ON" else "OFF"),
      "CAN_SPEED:\tbps" + (if s.timestamp then "\tT" else "") + (if s.slcan then "\tON" else "\tOFF")
    ])
  }

  /**
   * parse_slcancmd: one command line, selected by its first byte.
   * The second byte of a Z or S line exists because the line ends in CR.
   */
  function Dispatch(s: Session, line: seq<char>, txOk: bool): (r: Step)
    requires IsCommandLine(line)
    ensures |r.events| <= 1
  {
    match line[0]
    case 'O' => Step(s.(slcan := true), Ack, [StartCan(s.speed, s.code, s.mask)])
    case 'C' => Step(s.(slcan := false), Ack, [StopCan])
    case 't' => SendFrame(s, line[1..], false, false, txOk)
    case 'T' => SendFrame(s, line[1..], true, false, txOk)
    case 'r' => SendFrame(s, line[1..], false, true, txOk)
    case 'R' => SendFrame(s, line[1..], true, true, txOk)
    case 'Z' =>
      if line[1] == '0' then Step(s.(timestamp := false), Ack, [])
      else if line[1] == '1' then Step(s.(timestamp := true), Ack, [])
      else Step(s, [], [])
    case 'M' => Step(ChangeFilter(s, line[1..], false), Ack, [])
    case 'm' => Step(ChangeFilter(s, line[1..], true), Ack, [])
    case 'S' => ChangeSpeed(s, line[1])
    case 'F' => Step(s, Ack, [])
    case 'V' => Step(s, "V1" + Ack, [])
    case 'N' => Step(s, "N2208" + Ack, [])
    case 'l' => Step(s.(cr := !s.cr), Nack, [])
    case 'h' => Step(s, HelpText(s) + Nack, [])
    case _ => Step(s, Nack, [])
  }

  // ---------------------------------------------------------------- command properties

  /** O opens and C closes the session, each with one bus request and an ACK. */
  lemma OpenClose(s: Session, line: seq<char>, txOk: bool)
    requires IsCommandLine(line) && (line[0] == 'O' || line[0] == 'C')
    ensures var r := Dispatch(s, line, txOk);
      && r.session == s.(slcan := line[0] == 'O')
      && r.out == Ack
      && r.events == (if line[0] == 'O' then [StartCan(s.speed, s.code, s.mask)] else [StopCan])
  {
  }

  /** Z0 and Z1 set the timestamp option and ACK; any other Z argument changes nothing and writes nothing. */
  lemma TimestampCommand(s: Session, line: seq<char>, txOk: bool)
    requires IsCommandLine(line) && line[0] == 'Z'
    ensures |line| >= 2
    ensures var r := Dispatch(s, line, txOk);
      if line[1] == '0' || line[1] == '1' then r == Step(s.(timestamp := line[1] == '1'), Ack, [])
      else r == Step(s, [], [])
  {
  }

  /** l toggles the line-feed option and NACKs, requesting nothing. */
  lemma LineFeedToggle(s: Session, line: seq<char>, txOk: bool)
    requires IsCommandLine(line) && line[0] == 'l'
    ensures Dispatch(s, line, txOk) == Step(s.(cr := !s.cr), Nack, [])
  {
  }

  /** h prints the help text for the current settings and NACKs, changing nothing. */
  lemma HelpCommand(s: Session, line: seq<char>, txOk: bool)
    requires IsCommandLine(line) && line[0] == 'h'
    ensures Dispatch(s, line, txOk) == Step(s, HelpText(s) + Nack, [])
  {
  }

  /** F, V and N change nothing and ACK, V and N after the version and serial number. */
  lemma Queries(s: Session, line: seq<char>, txOk: bool)
    requires IsCommandLine(line) && (line[0] == 'F' || line[0] == 'V' || line[0] == 'N')
    ensures var r := Dispatch(s, line, txOk);
      && r.session == s && r.events == []
      && r.out == (if line[0] == 'F' then "" else if line[0] == 'V' then "V1" else "N2208") + Ack
  {
  }

  /** A line whose first byte is no verb (an empty line among them) NACKs and changes nothing. */
  lemma UnknownVerb(s: Session, line: seq<char>, txOk: bool)
    requires IsCommandLine(line) && !IsVerb(line[0])
    ensures Dispatch(s, line, txOk) == Step(s, Nack, [])
  {
  }

  /**
   * S is ignored while open; while closed S0..S8 select that timing
   * profile and ACK, and any other argument NACKs and keeps the profile.
   */
  lemma SpeedGating(s: Session, line: seq<char>, txOk: bool)
    requires IsCommandLine(line) && line[0] == 'S'
    ensures |line| >= 2
    ensures var r := Dispatch(s, line, txOk);
      && r.events == []
      && (s.slcan ==> r.session == s && r.out == [])
      && (!s.slcan && '0' <= line[1] <= '8' ==>
            && r.session == s.(speed := line[1] as int - '0' as int)
            && r.session.speed < |BitRates| && r.out == Ack)
      && (!s.slcan && !('0' <= line[1] <= '8') ==> r.session == s && r.out == Nack)
  {
  }

  /**
   * M and m always ACK and request nothing; only while closed do they
   * replace the acceptance code or mask, with the eight hex digits that
   * follow when those scan.
   */
  lemma FilterGating(s: Session, line: seq<char>, txOk: bool)
    requires IsCommandLine(line) && (line[0] == 'M' || line[0] == 'm')
    ensures var r := Dispatch(s, line, txOk);
      var v := ScanHex(line[1..], 0, 8);
      && r.out == Ack && r.events == []
      && r.session == (if s.slcan then s
                       else if line[0] == 'm' then s.(mask := v.GetOr(s.mask))
                       else s.(code := v.GetOr(s.code)))
  {
  }

  /** A closed session given M or m and a 32-bit value in eight hex digits takes that value. */
  lemma SetFilter(s: Session, v: nat, upper: bool, mask: bool, txOk: bool)
    requires !s.slcan && v < 0x1_0000_0000
    ensures var line := [if mask then 'm' else 'M'] + FormatHex(v, 8, upper) + [CR];
      && IsCommandLine(line)
      && Dispatch(s, line, txOk) == Step(if mask then s.(mask := v) else s.(code := v), Ack, [])
  {
    var line := [if mask then 'm' else 'M'] + FormatHex(v, 8, upper) + [CR];
    assert line[1..] == FormatHex(v, 8, upper) + [CR];
    FilterArgument(line[1..], v, upper);
  }

  /** Eight hex digits before the CR are scanned back as the filter value. */
  lemma FilterArgument(args: seq<char>, v: nat, upper: bool)
    requires v < 0x1_0000_0000 && args == FormatHex(v, 8, upper) + [CR]
    ensures ScanHex(args, 0, 8) == Some(v)
  {
    Pow16Values();
    assert args == [] + FormatHex(v, 8, upper) + [CR];
    ScanAfter(args, [], v, 8, upper, [CR]);
  }

  /**
   * t, T, r and R change no setting; they queue the decoded frame exactly
   * when the session is open and the DLC digit is at most 8, and ACK only
   * when it was queued and the driver accepted it.
   */
  lemma SendGating(s: Session, line: seq<char>, txOk: bool)
    requires IsCommandLine(line) && (line[0] == 't' || line[0] == 'T' || line[0] == 'r' || line[0] == 'R')
    ensures var ext := line[0] == 'T' || line[0] == 'R';
      var rtr := line[0] == 'r' || line[0] == 'R';
      var f := Decode(line[1..], ext, rtr);
      var r := Dispatch(s, line, txOk);
      && r.session == s
      && (r.events != [] <==> s.slcan && f.Some?)
      && (r.events != [] ==> r.events == [Transmit(f.value)])
      && r.out == (if s.slcan && f.Some? && txOk then Ack else Nack)
  {
  }

  /** A valid frame written as a command line is transmitted as that very frame while open. */
  lemma SendEncoded(s: Session, f: Frame, txOk: bool)
    requires s.slcan && ValidFrame(f)
    ensures var line := [Verb(f.ext, f.rtr)] + Arguments(f) + [CR];
      && IsCommandLine(line)
      && Dispatch(s, line, txOk) == Step(s, if txOk then Ack else Nack, [Transmit(f)])
  {
    var line := [Verb(f.ext, f.rtr)] + Arguments(f) + [CR];
    assert line[1..] == Arguments(f) + [CR];
    DecodeArguments(f, [CR]);
  }

  /** The only replies that are empty: S while open, and Z with an argument other than 0 or 1. */
  lemma SilentCommands(s: Session, line: seq<char>, txOk: bool)
    requires IsCommandLine(line)
    ensures Dispatch(s, line, txOk).out == [] <==>
      (line[0] == 'S' && s.slcan) || (line[0] == 'Z' && line[1] != '0' && line[1] != '1')
  {
  }

  /** A reply that ends with an ACK or a NACK. */
  predicate Terminated(out: seq<char>)
  {
    (|out| >= 1 && out[|out| - 1] == BEL) || (|out| >= 2 && out[|out| - 2..] == Ack)
  }

  /** Text followed by an ACK or a NACK is terminated. */
  lemma EndsWithReply(text: seq<char>, reply: seq<char>)
    requires reply == Ack || reply == Nack
    ensures Terminated(text + reply)
  {
    var out := text + reply;
    if reply == Ack {
      assert out[|out| - 2..] == Ack;
    } else {
      assert out[|out| - 1] == BEL;
    }
  }

  /** Every reply that is not empty ends with an ACK or a NACK. */
  lemma ReplyTerminated(s: Session, line: seq<char>, txOk: bool)
    requires IsCommandLine(line)
    ensures var out := Dispatch(s, line, txOk).out;
      out != [] ==> Terminated(out)
  {
    var out := Dispatch(s, line, txOk).out;
    if out != [] {
      match line[0]
      case 'V' => EndsWithReply("V1", Ack);
      case 'N' => EndsWithReply("N2208", Ack);
      case 'h' => EndsWithReply(HelpText(s), Nack);
      case _ =>
        BareReply(s, line, txOk);
        EndsWithReply([], out);
        assert [] + out == out;
    }
  }

  /** Apart from V, N and h, a reply is an ACK, a NACK or nothing. */
  lemma BareReply(s: Session, line: seq<char>, txOk: bool)
    requires IsCommandLine(line) && line[0] != 'V' && line[0] != 'N' && line[0] != 'h'
    ensures var out := Dispatch(s, line, txOk).out;
      out == [] || out == Ack || out == Nack
  {
  }

  /** Only O, C and the send commands reach the bus, and nothing is transmitted while closed. */
  lemma BusRequests(s: Session, line: seq<char>, txOk: bool)
    requires IsCommandLine(line)
    ensures var r := Dispatch(s, line, txOk);
      && (r.events != [] ==> line[0] in "OCtTrR")
      && (forall e :: e in r.events && e.Transmit? ==> s.slcan)
  {
  }

  // ---------------------------------------------------------------- framing

  /**
   * The engine as the serial side sees it: the session, the bytes buffered
   * since the last line end, everything written to the port and every bus
   * request so far.
   */
  datatype Engine = Engine(session: Session, pending: seq<char>, out: seq<char>, events: seq<BusEvent>)

  /** The start-up engine. */
  const Start: Engine := Engine(Initial, [], [], [])

  /** The framer's invariant: the buffer holds fewer than 32 bytes, none of them CR. */
  predicate Framed(e: Engine)
  {
    |e.pending| < BufferSize && CR !in e.pending
  }

  /**
   * One byte of xfer_tty2can. The byte is stored; a full buffer NACKs and
   * is emptied, whatever the byte; otherwise a CR hands the buffered line,
   * CR included, to the dispatcher. txOk is the driver's answer should
   * that line queue a frame.
   */
  function FeedByte(e: Engine, c: char, txOk: bool): (r: Engine)
    requires |e.pending| < BufferSize
    ensures |r.pending| < BufferSize
  {
    var line := e.pending + [c];
    if |line| == BufferSize then e.(pending := [], out := e.out + Nack)
    else if c == CR then
      var r := Dispatch(e.session, line, txOk);
      Engine(r.session, [], e.out + r.out, e.events + r.events)
    else e.(pending := line)
  }

  /** A run of input bytes, txOk[i] answering for byte i. */
  function Feed(e: Engine, input: seq<char>, txOk: seq<bool>): (r: Engine)
    requires |e.pending| < BufferSize && |txOk| == |input|
    ensures |r.pending| < BufferSize
    decreases |input|
  {
    if input == [] then e
    else
      var n := |input| - 1;
      FeedByte(Feed(e, input[..n], txOk[..n]), input[n], txOk[n])
  }

  /**
   * The framer keeps its invariant, and output and bus requests are only
   * ever appended to.
   */
  lemma {:induction false} FeedKeepsFraming(e: Engine, input: seq<char>, txOk: seq<bool>)
    requires |e.pending| < BufferSize && |txOk| == |input|
    ensures var r := Feed(e, input, txOk);
      && (Framed(e) ==> Framed(r))
      && e.out <= r.out && e.events <= r.events
    decreases |input|
  {
    if input != [] {
      var n := |input| - 1;
      FeedKeepsFraming(e, input[..n], txOk[..n]);
    }
  }

  /** The 32nd buffered byte, a CR as much as any other, only NACKs and empties the buffer. */
  lemma Overflow(e: Engine, c: char, txOk: bool)
    requires |e.pending| == BufferSize - 1
    ensures FeedByte(e, c, txOk) == e.(pending := [], out := e.out + Nack)
  {
  }

  /** Before that, a CR dispatches the buffered line, at most 31 bytes, and empties the buffer. */
  lemma LineEnd(e: Engine, txOk: bool)
    requires |e.pending| < BufferSize - 1
    ensures var line := e.pending + [CR];
      var r := Dispatch(e.session, line, txOk);
      && IsCommandLine(line) && |line| < BufferSize
      && FeedByte(e, CR, txOk) == Engine(r.session, [], e.out + r.out, e.events + r.events)
  {
  }

  /** Feeding two runs one after the other is feeding their concatenation. */
  lemma {:induction false} FeedAppend(e: Engine, a: seq<char>, b: seq<char>, okA: seq<bool>, okB: seq<bool>)
    requires |e.pending| < BufferSize && |okA| == |a| && |okB| == |b|
    ensures Feed(e, a + b, okA + okB) == Feed(Feed(e, a, okA), b, okB)
    decreases |b|
  {
    if b == [] {
      assert a + b == a && okA + okB == okA;
    } else {
      var n := |b| - 1;
      var c := b[n];
      var ok := okA + okB;
      assert a + b == (a + b[..n]) + [c];
      assert ok[..|a| + n] == okA + okB[..n] && ok[|a| + n] == okB[n];
      FeedLast(e, a + b[..n], c, ok);
      FeedAppend(e, a, b[..n], okA, okB[..n]);
      assert b[..n] + [c] == b;
      FeedLast(Feed(e, a, okA), b[..n], c, okB);
    }
  }

  /** Feeding a run and then one more byte. */
  lemma FeedLast(e: Engine, input: seq<char>, c: char, txOk: seq<bool>)
    requires |e.pending| < BufferSize && |txOk| == |input| + 1
    ensures Feed(e, input + [c], txOk) == FeedByte(Feed(e, input, txOk[..|input|]), c, txOk[|input|])
  {
    assert (input + [c])[..|input|] == input && (input + [c])[|input|] == c;
  }

  /** Bytes without CR that fit in the buffer are only stored. */
  lemma {:induction false} Fill(e: Engine, input: seq<char>, txOk: seq<bool>)
    requires |e.pending| + |input| < BufferSize && CR !in input && |txOk| == |input|
    ensures Feed(e, input, txOk) == e.(pending := e.pending + input)
    decreases |input|
  {
    if input == [] {
      assert e.pending + input == e.pending;
    } else {
      var n := |input| - 1;
      Fill(e, input[..n], txOk[..n]);
      assert e.pending + input[..n] + [input[n]] == e.pending + input;
    }
  }

  /**
   * A command line that fits the buffer, fed to an idle framer, is
   * dispatched once, with the answer given for its CR.
   */
  lemma CommandLine(e: Engine, cmd: seq<char>, txOk: seq<bool>)
    requires e.pending == [] && CR !in cmd && |cmd| < BufferSize - 1 && |txOk| == |cmd| + 1
    ensures var r := Dispatch(e.session, cmd + [CR], txOk[|cmd|]);
      Feed(e, cmd + [CR], txOk) == Engine(r.session, [], e.out + r.out, e.events + r.events)
  {
    var n := |cmd|;
    FeedLast(e, cmd, CR, txOk);
    Fill(e, cmd, txOk[..n]);
    assert e.pending + cmd == cmd;
    LineEnd(e.(pending := cmd), txOk[n]);
  }

  /**
   * 33 bytes without CR fed to an idle framer: the first 32 give exactly
   * one NACK and are dropped, and the 33rd starts the next line.
   */
  lemma OverlongLine(e: Engine, input: seq<char>, txOk: seq<bool>)
    requires e.pending == [] && |input| == BufferSize + 1 && CR !in input && |txOk| == |input|
    ensures Feed(e, input, txOk) == e.(pending := [input[BufferSize]], out := e.out + Nack)
  {
    var k := BufferSize - 1;
    Fill(e, input[..k], txOk[..k]);
    assert input[..BufferSize][..k] == input[..k];
    assert txOk[..BufferSize][..k] == txOk[..k];
    Overflow(e.(pending := input[..k]), input[k], txOk[k]);
  }

  /** A valid frame typed as a command line into an idle, open engine is queued as that frame. */
  lemma TransmitLine(e: Engine, f: Frame, txOk: seq<bool>)
    requires e.pending == [] && e.session.slcan && ValidFrame(f)
    requires |txOk| == |Arguments(f)| + 2
    ensures var line := [Verb(f.ext, f.rtr)] + Arguments(f) + [CR];
      Feed(e, line, txOk) == e.(out := e.out + (if txOk[|line| - 1] then Ack else Nack),
                                events := e.events + [Transmit(f)])
  {
    var cmd := [Verb(f.ext, f.rtr)] + Arguments(f);
    FrameCommand(f);
    SendEncoded(e.session, f, txOk[|cmd|]);
    CommandLine(e, cmd, txOk);
  }

  /** A valid frame as a command, before its CR: no CR inside, and it fits the buffer. */
  lemma FrameCommand(f: Frame)
    requires ValidFrame(f)
    ensures var cmd := [Verb(f.ext, f.rtr)] + Arguments(f);
      CR !in cmd && |cmd| < BufferSize - 1
  {
    ArgumentPieces(f);
    ArgumentsAreHex(f);
  }
}
