/**
 * The firmware as it runs: the globals, the static command buffer of
 * xfer_tty2can, everything written to the serial port and every request
 * made of the CAN controller, changed in place by the entry points.
 * Each method is proved against the value-level model in Protocol.
 */
module Firmware {
  import opened Options
  import opened Hex
  import opened Frames
  import opened Protocol

  class Slcan {
    // The globals: open flag, line-feed option, timestamp option, timing
    // profile (t_config) and the acceptance code and mask (f_config).
    var slcan: bool
    var cr: bool
    var timestamp: bool
    var speed: nat
    var acceptanceCode: nat
    var acceptanceMask: nat

    // The static buffer and index of xfer_tty2can.
    const cmdbuf: array<char>
    var cmdidx: nat

    // Everything written to the serial port, every request to the controller.
    var output: seq<char>
    var events: seq<BusEvent>

    ghost predicate Valid()
      reads this
    {
      cmdbuf.Length == BufferSize && cmdidx < BufferSize
    }

    /** The settings as a value. */
    function State(): Session
      reads this
    {
      Session(slcan, cr, timestamp, speed, acceptanceCode, acceptanceMask)
    }

    /** The whole engine as a value: settings, buffered bytes, output and requests. */
    ghost function View(): Engine
      requires Valid()
      reads this, cmdbuf
    {
      Engine(State(), cmdbuf[..cmdidx], output, events)
    }

    /** The start-up state: the initial globals, an empty buffer, nothing written or requested. */
    constructor ()
      ensures Valid() && fresh(cmdbuf)
      ensures View() == Start
    {
      slcan, cr, timestamp := true, false, false;
      speed, acceptanceCode, acceptanceMask := 0, 0, AcceptAllMask;
      cmdbuf := new char[BufferSize](_ => '\0');
      cmdidx := 0;
      output, events := [], [];
    }

    /** Serial.print: text appended to the port. */
    method Print(text: seq<char>)
      modifies this
      ensures output == old(output) + text
      ensures State() == old(State()) && events == old(events) && cmdidx == old(cmdidx)
    {
      output := output + text;
    }

    /** slcan_ack. */
    method SlcanAck()
      modifies this
      ensures output == old(output) + Ack
      ensures State() == old(State()) && events == old(events) && cmdidx == old(cmdidx)
    {
      output := output + Ack;
    }

    /** slcan_nack. */
    method SlcanNack()
      modifies this
      ensures output == old(output) + Nack
      ensures State() == old(State()) && events == old(events) && cmdidx == old(cmdidx)
    {
      output := output + Nack;
    }

    /** changeCANSpeed, given the byte after the S. */
    method ChangeCanSpeed(arg: char)
      modifies this
      ensures var r := ChangeSpeed(old(State()), arg);
        && State() == r.session && output == old(output) + r.out && events == old(events) + r.events
      ensures cmdidx == old(cmdidx)
    {
      if slcan {
        return;
      }
      match arg
      case '0' => speed := 0; SlcanAck();
      case '1' => speed := 1; SlcanAck();
      case '2' => speed := 2; SlcanAck();
      case '3' => speed := 3; SlcanAck();
      case '4' => speed := 4; SlcanAck();
      case '5' => speed := 5; SlcanAck();
      case '6' => speed := 6; SlcanAck();
      case '7' => speed := 7; SlcanAck();
      case '8' => speed := 8; SlcanAck();
      case _ => SlcanNack();
    }

    /** changeCANFilter, given the bytes after the M or m. */
    method ChangeCanFilter(args: seq<char>, mask: bool)
      modifies this
      ensures State() == ChangeFilter(old(State()), args, mask)
      ensures output == old(output) && events == old(events) && cmdidx == old(cmdidx)
    {
      if slcan {
        return;
      }
      var scanned := ScanHex(args, 0, 8);
      if scanned.Some? {
        if mask {
          acceptanceMask := scanned.value;
        } else {
          acceptanceCode := scanned.value;
        }
      }
    }

    /**
     * send_canmsg, given the bytes after the verb; txOk is what
     * twai_transmit answers. Returns whether the frame was queued and accepted.
     */
    method SendCanMsg(args: seq<char>, ext: bool, rtr: bool, txOk: bool) returns (ok: bool)
      modifies this
      ensures var r := SendFrame(old(State()), args, ext, rtr, txOk);
        ok == (r.out == Ack) && events == old(events) + r.events
      ensures State() == old(State()) && output == old(output) && cmdidx == old(cmdidx)
    {
      if !slcan {
        SendRefused(State(), args, ext, rtr, txOk);
        return false;
      }
      var digits := IdDigits(ext);
      var msgId := ScanHex(args, 0, digits).GetOr(0);
      var dlc := ScanHex(args, digits, 1).GetOr(0);
      if dlc > 8 {
        SendRefused(State(), args, ext, rtr, txOk);
        return false;
      }
      var payload: seq<Byte> := [];
      if !rtr {
        var data := ReadPayload(args, digits + 1, dlc);
        payload := data[..dlc];
      }
      var frame := Frame(msgId, ext, rtr, dlc, payload);
      DecodeFields(args, ext, rtr, msgId, dlc, frame.data);
      SendQueued(State(), args, ext, rtr, txOk, frame);
      events := events + [Transmit(frame)];
      ok := txOk;
    }

    /** parse_slcancmd, given a command line; txOk is what twai_transmit answers should it be called. */
    method ParseSlcanCmd(line: seq<char>, txOk: bool)
      requires IsCommandLine(line)
      modifies this
      ensures var r := Dispatch(old(State()), line, txOk);
        && State() == r.session && output == old(output) + r.out && events == old(events) + r.events
      ensures cmdidx == old(cmdidx)
    {
      match line[0]
      case 'O' =>
        slcan := true;
        events := events + [StartCan(speed, acceptanceCode, acceptanceMask)];
        SlcanAck();
      case 'C' =>
        slcan := false;
        events := events + [StopCan];
        SlcanAck();
      case 't' => SendAndReply(line[1..], false, false, txOk);
      case 'T' => SendAndReply(line[1..], true, false, txOk);
      case 'r' => SendAndReply(line[1..], false, true, txOk);
      case 'R' => SendAndReply(line[1..], true, true, txOk);
      case 'Z' =>
        if line[1] == '0' {
          timestamp := false;
          SlcanAck();
        } else if line[1] == '1' {
          timestamp := true;
          SlcanAck();
        }
      case 'M' =>
        ChangeCanFilter(line[1..], false);
        SlcanAck();
      case 'm' =>
        ChangeCanFilter(line[1..], true);
        SlcanAck();
      case 'S' => ChangeCanSpeed(line[1]);
      case 'F' => SlcanAck();
      case 'V' =>
        Print("V1");
        SlcanAck();
      case 'N' =>
        Print("N2208");
        SlcanAck();
      case 'l' =>
        cr := !cr;
        SlcanNack();
      case 'h' =>
        Print(HelpText(State()));
        SlcanNack();
      case _ => SlcanNack();
    }

    /** The t/T/r/R arms of parse_slcancmd: send, then ACK on success and NACK otherwise. */
    method SendAndReply(args: seq<char>, ext: bool, rtr: bool, txOk: bool)
      modifies this
      ensures var r := SendFrame(old(State()), args, ext, rtr, txOk);
        && State() == r.session && output == old(output) + r.out && events == old(events) + r.events
      ensures cmdidx == old(cmdidx)
    {
      var ok := SendCanMsg(args, ext, rtr, txOk);
      if ok {
        SlcanAck();
      } else {
        SlcanNack();
      }
    }

    /**
     * xfer_tty2can over the bytes Serial.available() offers; txOk[i] is what
     * twai_transmit answers should byte i end a send command.
     */
    method XferTty2Can(input: seq<char>, txOk: seq<bool>)
      requires Valid() && |txOk| == |input|
      modifies this, cmdbuf
      ensures Valid() && View() == Feed(old(View()), input, txOk)
    {
      for i := 0 to |input|
        invariant Valid()
        invariant View() == Feed(old(View()), input[..i], txOk[..i])
      {
        ghost var before := View();
        FeedLast(old(View()), input[..i], input[i], txOk[..i + 1]);
        assert input[..i + 1] == input[..i] + [input[i]];
        assert txOk[..i + 1][..i] == txOk[..i];
        var val := input[i];
        cmdbuf[cmdidx] := val;
        cmdidx := cmdidx + 1;
        assert cmdbuf[..cmdidx] == before.pending + [val];
        if cmdidx == BufferSize {
          SlcanNack();
          cmdidx := 0;
          continue;
        }
        if val == CR {
          cmdbuf[cmdidx] := '\0';
          assert cmdbuf[..cmdidx] == before.pending + [val];
          ParseSlcanCmd(cmdbuf[..cmdidx], txOk[i]);
          cmdidx := 0;
        }
      }
      assert input[..|input|] == input && txOk[..|input|] == txOk;
    }

    /** The payload loop of xfer_can2tty: each byte as printf("%02X"). */
    method PrintPayload(data: seq<Byte>)
      modifies this
      ensures output == old(output) + DataHex(data)
      ensures State() == old(State()) && events == old(events) && cmdidx == old(cmdidx)
    {
      for i := 0 to |data|
        invariant output == old(output) + DataHex(data[..i])
        invariant State() == old(State()) && events == old(events) && cmdidx == old(cmdidx)
      {
        assert data[..i + 1][..i] == data[..i];
        output := output + FormatHex(data[i], 2, true);
      }
      assert data[..|data|] == data;
    }

    /**
     * xfer_can2tty: rx is what twai_receive delivered, if anything, and ms
     * what millis() reads.
     */
    method XferCan2Tty(rx: Option<Frame>, ms: nat)
      requires rx.Some? ==> rx.value.rtr || rx.value.dlc <= |rx.value.data|
      modifies this
      ensures output == old(output) + (if rx.Some? then EncodeFrame(rx.value, timestamp, cr, ms) else [])
      ensures State() == old(State()) && events == old(events) && cmdidx == old(cmdidx)
    {
      if rx.None? {
        return;
      }
      var message := rx.value;
      var id := message.id;
      var dlc := message.dlc;
      ghost var start := output;
      // The four printf calls differ only in the letter and the identifier width.
      var head := [Verb(message.ext, message.rtr)] + FormatHex(id, IdDigits(message.ext), false) + FormatDecimal(dlc);
      Print(head);
      if !message.rtr {
        PrintPayload(message.data[..dlc]);
      }
      ghost var payload := if message.rtr then [] else DataHex(message.data[..dlc]);
      assert output == start + head + payload;
      if timestamp {
        Print(FormatHex(ms % 60000, 4, false));
      }
      assert output == start + head + payload + Timestamp(timestamp, ms);
      Print([CR]);
      if cr {
        Print(NewLine);
      }
      PrintedLine(start, message, timestamp, cr, ms);
    }
  }

  /**
   * The payload loop of send_canmsg: dlc hex pairs from off into the
   * 8-byte data field of a fresh message. A pair that does not scan
   * repeats the value scanned before it, because `value` is never reset.
   */
  method ReadPayload(args: seq<char>, off: nat, dlc: nat) returns (data: array<Byte>)
    requires dlc <= 8
    ensures fresh(data) && data.Length == 8 && data[..dlc] == Payload(args, off, dlc)
  {
    data := new Byte[8];
    var n := dlc * 2;
    var value: Byte := 0;
    var i := 0;
    while i < dlc && n >= 2
      invariant 0 <= i <= dlc && n == 2 * (dlc - i)
      invariant data[..i] == Payload(args, off, i)
      invariant value == LastOr(Payload(args, off, i), 0)
      modifies data
    {
      var scanned := ScanHex(args, off + 2 * i, 2);
      PayloadStep(args, off, i);
      if scanned.Some? {
        value := scanned.value;
      }
      data[i] := value;
      assert data[..i + 1] == data[..i] + [value];
      i, n := i + 1, n - 2;
    }
    assert i == dlc;
  }

  /** The line for a received frame, in the pieces xfer_can2tty prints. */
  lemma PrintedLine(start: seq<char>, f: Frame, timestamp: bool, cr: bool, ms: nat)
    requires f.rtr || f.dlc <= |f.data|
    ensures start + EncodeFrame(f, timestamp, cr, ms)
      == start + ([Verb(f.ext, f.rtr)] + FormatHex(f.id, IdDigits(f.ext), false) + FormatDecimal(f.dlc))
         + (if f.rtr then [] else DataHex(f.data[..f.dlc])) + Timestamp(timestamp, ms)
         + [CR] + (if cr then NewLine else [])
  {
    assert Terminator(cr) == [CR] + (if cr then NewLine else []);
    Regroup([Verb(f.ext, f.rtr)], FormatHex(f.id, IdDigits(f.ext), false), FormatDecimal(f.dlc),
      if f.rtr then [] else DataHex(f.data[..f.dlc]), Timestamp(timestamp, ms), Terminator(cr));
    Reassociate(start, [Verb(f.ext, f.rtr)] + FormatHex(f.id, IdDigits(f.ext), false) + FormatDecimal(f.dlc),
      if f.rtr then [] else DataHex(f.data[..f.dlc]), Timestamp(timestamp, ms), [CR], if cr then NewLine else []);
  }

  /** Appending pieces one by one is appending them at once. */
  lemma Reassociate<T>(start: seq<T>, a: seq<T>, b: seq<T>, c: seq<T>, d: seq<T>, e: seq<T>)
    ensures start + (a + b + c + (d + e)) == start + a + b + c + d + e
  {
  }
}
