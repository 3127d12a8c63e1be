/**
 * The frame codec: the ASCII arguments of a t/T/r/R command turned into a
 * CAN frame (send_canmsg), and a received CAN frame turned into an outbound
 * line (xfer_can2tty).
 */
module Frames {
  import opened Options
  import opened Hex

  type Byte = x: int | 0 <= x < 256

  const CR: char := '\r'
  const LF: char := '\n'

  /**
   * A CAN frame as held in a twai_message_t: identifier, extended-identifier
   * flag, remote-request flag, data length code and payload.
   */
  datatype Frame = Frame(id: nat, ext: bool, rtr: bool, dlc: nat, data: seq<Byte>)

  /** A frame a CAN controller can deliver: 29- or 11-bit identifier, DLC at most 8, DLC payload bytes unless remote. */
  predicate ValidFrame(f: Frame)
  {
    && f.id < (if f.ext then 0x2000_0000 else 0x800)
    && f.dlc <= 8
    && |f.data| == (if f.rtr then 0 else f.dlc)
  }

  /** Hex digits of the identifier field: 8 for extended frames, 3 for standard ones. */
  function IdDigits(ext: bool): nat
  {
    if ext then 8 else 3
  }

  /** Offset of the first payload pair within the arguments: identifier digits plus one DLC digit. */
  function DataOffset(ext: bool): nat
  {
    IdDigits(ext) + 1
  }

  /** The command letter of a frame line. */
  function Verb(ext: bool, rtr: bool): char
  {
    if rtr then (if ext then 'R' else 'r') else (if ext then 'T' else 't')
  }

  // ---------------------------------------------------------------- decoding

  /**
   * The payload loop of send_canmsg: byte i is the hex pair at off + 2i;
   * when that pair does not scan, the byte repeats the previous one (the
   * variable the scan writes is never reset), and the first one is 0.
   */
  function Payload(args: seq<char>, off: nat, count: nat): (p: seq<Byte>)
    ensures |p| == count
    decreases count
  {
    if count == 0 then []
    else
      var q := Payload(args, off, count - 1);
      var scanned := ScanHex(args, off + 2 * (count - 1), 2);
      assert scanned.Some? ==> scanned.value < 256 by {
        Pow16Values();
      }
      q + [scanned.GetOr(LastOr(q, 0))]
  }

  function LastOr(q: seq<Byte>, fallback: Byte): Byte
  {
    if q == [] then fallback else q[|q| - 1]
  }

  /** Byte i of the payload: the pair at off + 2i if it scans, else the byte before it (0 for the first). */
  lemma {:induction false} PayloadAt(args: seq<char>, off: nat, count: nat, i: nat)
    requires i < count
    ensures Payload(args, off, count)[i] ==
      ScanHex(args, off + 2 * i, 2).GetOr(if i == 0 then 0 else Payload(args, off, count)[i - 1])
    decreases count
  {
    var q := Payload(args, off, count - 1);
    assert Payload(args, off, count)[..count - 1] == q;
    if i < count - 1 {
      PayloadAt(args, off, count - 1, i);
    }
  }

  /**
   * send_canmsg after its open check, given the arguments after the command
   * letter: the frame to transmit, or None when the DLC digit exceeds 8. An
   * identifier or DLC field that does not scan stays 0. Unlike the source,
   * the frame's remote-request flag is set from the command (see
   * DecodeAsWritten).
   */
  function Decode(args: seq<char>, ext: bool, rtr: bool): (r: Option<Frame>)
    ensures r.None? <==> ScanHex(args, IdDigits(ext), 1).GetOr(0) > 8
    ensures r.Some? ==>
      && r.value.ext == ext && r.value.rtr == rtr
      && r.value.id < Pow16(IdDigits(ext))
      && r.value.dlc <= 8
      && r.value.id == ScanHex(args, 0, IdDigits(ext)).GetOr(0)
      && r.value.dlc == ScanHex(args, IdDigits(ext), 1).GetOr(0)
      && r.value.data == (if rtr then [] else Payload(args, DataOffset(ext), r.value.dlc))
  {
    var id := ScanHex(args, 0, IdDigits(ext)).GetOr(0);
    var dlc := ScanHex(args, IdDigits(ext), 1).GetOr(0);
    if dlc > 8 then None
    else Some(Frame(id, ext, rtr, dlc, if rtr then [] else Payload(args, DataOffset(ext), dlc)))
  }

  /** The frame Decode builds from the scanned fields. */
  lemma DecodeFields(args: seq<char>, ext: bool, rtr: bool, id: nat, dlc: nat, data: seq<Byte>)
    requires id == ScanHex(args, 0, IdDigits(ext)).GetOr(0)
    requires dlc == ScanHex(args, IdDigits(ext), 1).GetOr(0) && dlc <= 8
    requires data == if rtr then [] else Payload(args, DataOffset(ext), dlc)
    ensures Decode(args, ext, rtr) == Some(Frame(id, ext, rtr, dlc, data))
  {
  }

  /**
   * send_canmsg as written: message.rtr is never assigned, so the flag the
   * driver sees is whatever the stack held (stale).
   */
  function DecodeAsWritten(args: seq<char>, ext: bool, rtr: bool, stale: bool): (r: Option<Frame>)
    ensures r.Some? <==> Decode(args, ext, rtr).Some?
    ensures r.Some? ==> r.value == Decode(args, ext, rtr).value.(rtr := stale)
  {
    match Decode(args, ext, rtr)
    case None => None
    case Some(f) => Some(f.(rtr := stale))
  }

  /** "r1230": a remote request for identifier 0x123 can leave as a data frame. */
  lemma RemoteRequestDropped()
    ensures DecodeAsWritten("1230\r", false, true, false) == Some(Frame(0x123, false, false, 0, []))
    ensures Decode("1230\r", false, true) == Some(Frame(0x123, false, true, 0, []))
  {
    var args := "1230\r";
    assert args[0..3] == "123";
    assert HexValue("123") == 0x123 by {
      assert "123"[..2] == "12";
      assert "12"[..1] == "1";
    }
    assert args[3..4] == "0";
    assert HexValue("0") == 0;
  }

  /** One more turn of the payload loop: the pair at 2i, or the previous byte when it does not scan. */
  lemma PayloadStep(args: seq<char>, off: nat, i: nat)
    ensures var p := Payload(args, off, i);
      var scanned := ScanHex(args, off + 2 * i, 2);
      && (scanned.Some? ==> scanned.value < 256)
      && Payload(args, off, i + 1) == p + [scanned.GetOr(LastOr(p, 0))]
      && LastOr(Payload(args, off, i + 1), 0) == scanned.GetOr(LastOr(p, 0))
  {
    Pow16Values();
  }

  /** Bytes that scan as pairs are decoded exactly; the other bytes do not matter. */
  lemma PayloadOfPairs(args: seq<char>, off: nat, data: seq<Byte>)
    requires forall i :: 0 <= i < |data| ==> ScanHex(args, off + 2 * i, 2) == Some(data[i])
    ensures Payload(args, off, |data|) == data
  {
    var p := Payload(args, off, |data|);
    forall i | 0 <= i < |data| ensures p[i] == data[i] {
      PayloadAt(args, off, |data|, i);
    }
  }

  // ---------------------------------------------------------------- encoding

  /** The payload as printf("%02X") per byte. */
  function DataHex(data: seq<Byte>): (r: seq<char>)
    ensures |r| == 2 * |data|
    decreases |data|
  {
    if data == [] then []
    else
      FormatHexWidth(data[|data| - 1], 2, true);
      DataHex(data[..|data| - 1]) + FormatHex(data[|data| - 1], 2, true)
  }

  /** Pair i of DataHex(data) is byte i in two upper-case digits. */
  lemma {:induction false} DataHexAt(data: seq<Byte>, i: nat)
    requires i < |data|
    ensures DataHex(data)[2 * i..2 * i + 2] == FormatHex(data[i], 2, true)
    decreases |data|
  {
    var init := data[..|data| - 1];
    FormatHexWidth(data[|data| - 1], 2, true);
    assert DataHex(data) == DataHex(init) + FormatHex(data[|data| - 1], 2, true);
    if i < |data| - 1 {
      DataHexAt(init, i);
    }
  }

  /** What the decoder reads back: identifier, DLC in decimal and, unless remote, the payload. */
  function Arguments(f: Frame): (a: seq<char>)
    requires f.rtr || f.dlc <= |f.data|
    ensures |a| >= DataOffset(f.ext) + (if f.rtr then 0 else 2 * f.dlc)
  {
    FormatHex(f.id, IdDigits(f.ext), false) + FormatDecimal(f.dlc)
    + (if f.rtr then [] else DataHex(f.data[..f.dlc]))
  }

  /** The payload text is hex digits only. */
  lemma {:induction false} DataHexDigits(data: seq<Byte>)
    ensures AllHex(DataHex(data))
    decreases |data|
  {
    if data != [] {
      var n := |data| - 1;
      DataHexDigits(data[..n]);
      FormatHexDigits(data[n], 2, true);
      AllHexAppend(DataHex(data[..n]), FormatHex(data[n], 2, true));
    }
  }

  /** The arguments of a frame are hex digits only, so they hold no CR. */
  lemma ArgumentsAreHex(f: Frame)
    requires f.rtr || f.dlc <= |f.data|
    ensures AllHex(Arguments(f)) && CR !in Arguments(f)
  {
    var id := FormatHex(f.id, IdDigits(f.ext), false);
    var d := FormatDecimal(f.dlc);
    var payload := if f.rtr then [] else DataHex(f.data[..f.dlc]);
    FormatHexDigits(f.id, IdDigits(f.ext), false);
    if !f.rtr {
      DataHexDigits(f.data[..f.dlc]);
    }
    AllHexAppend(id, d);
    AllHexAppend(id + d, payload);
  }

  /** The optional timestamp: printf("%04x") of the uptime modulo 60000. */
  function Timestamp(timestamp: bool, ms: nat): (r: seq<char>)
    ensures |r| == if timestamp then 4 else 0
  {
    if timestamp then
      Pow16Values();
      FormatHexWidth(ms % 60000, 4, false);
      FormatHex(ms % 60000, 4, false)
    else []
  }

  /** CR, then println("") (CR LF) when the line-feed option is on. */
  function Terminator(cr: bool): (r: seq<char>)
    ensures |r| >= 1 && r[0] == CR
    ensures cr <==> |r| > 1
  {
    if cr then [CR, CR, LF] else [CR]
  }

  /** The line xfer_can2tty writes for a received frame. */
  function EncodeFrame(f: Frame, timestamp: bool, cr: bool, ms: nat): (line: seq<char>)
    requires f.rtr || f.dlc <= |f.data|
    ensures |line| >= 1 + |Terminator(cr)|
    ensures line[0] == Verb(f.ext, f.rtr)
    ensures line[|line| - |Terminator(cr)|..] == Terminator(cr)
  {
    [Verb(f.ext, f.rtr)] + Arguments(f) + Timestamp(timestamp, ms) + Terminator(cr)
  }

  /** A line made of six consecutive pieces, and where each piece sits. */
  lemma SixPieces<T>(a: seq<T>, b: seq<T>, c: seq<T>, d: seq<T>, e: seq<T>, g: seq<T>, line: seq<T>)
    requires line == a + b + c + d + e + g
    ensures |line| == |a| + |b| + |c| + |d| + |e| + |g|
    ensures line == a + b + (c + d + e + g)
    ensures line == a + b + c + d + (e + g)
    ensures line[|line| - |g|..] == g
  {
  }

  /** A number printed in exactly width digits right after pre is scanned back. */
  lemma ScanAfter(line: seq<char>, pre: seq<char>, n: nat, width: nat, upper: bool, post: seq<char>)
    requires 1 <= width && n < Pow16(width)
    requires line == pre + FormatHex(n, width, upper) + post
    ensures |pre| + width <= |line|
    ensures ScanHex(line, |pre|, width) == Some(n)
    ensures forall j :: |pre| <= j < |pre| + width ==> IsCasedHexDigit(line[j], upper)
  {
    FormatHexWidth(n, width, upper);
    assert line[|pre|..|pre| + width] == FormatHex(n, width, upper);
    ScanSlice(line, |pre|, n, width, upper);
  }

  /** A byte printed in two digits at offset at is scanned back. */
  lemma ScanByte(line: seq<char>, at: nat, b: Byte, upper: bool)
    requires at + 2 <= |line| && line[at..at + 2] == FormatHex(b, 2, upper)
    ensures ScanHex(line, at, 2) == Some(b)
    ensures IsCasedHexDigit(line[at], upper) && IsCasedHexDigit(line[at + 1], upper)
  {
    assert b < Pow16(2) by {
      Pow16Values();
    }
    ScanSlice(line, at, b, 2, upper);
  }

  /** The arguments of a valid frame, piece by piece. */
  lemma ArgumentPieces(f: Frame)
    requires ValidFrame(f)
    ensures f.id < Pow16(IdDigits(f.ext))
    ensures |FormatHex(f.id, IdDigits(f.ext), false)| == IdDigits(f.ext)
    ensures Arguments(f) == FormatHex(f.id, IdDigits(f.ext), false) + [DecimalDigit(f.dlc)]
      + (if f.rtr then [] else DataHex(f.data))
  {
    Pow16Values();
    FormatHexWidth(f.id, IdDigits(f.ext), false);
    SingleDecimal(f.dlc);
    assert f.rtr || f.data[..f.dlc] == f.data;
  }

  /** An encoded valid frame, piece by piece. */
  lemma EncodePieces(f: Frame, timestamp: bool, cr: bool, ms: nat)
    requires ValidFrame(f)
    ensures EncodeFrame(f, timestamp, cr, ms) == [Verb(f.ext, f.rtr)] + FormatHex(f.id, IdDigits(f.ext), false)
      + [DecimalDigit(f.dlc)] + (if f.rtr then [] else DataHex(f.data)) + Timestamp(timestamp, ms) + Terminator(cr)
  {
    ArgumentPieces(f);
    Regroup([Verb(f.ext, f.rtr)], FormatHex(f.id, IdDigits(f.ext), false), [DecimalDigit(f.dlc)],
      if f.rtr then [] else DataHex(f.data), Timestamp(timestamp, ms), Terminator(cr));
  }

  lemma Regroup<T>(a: seq<T>, b: seq<T>, c: seq<T>, d: seq<T>, e: seq<T>, g: seq<T>)
    ensures a + (b + c + d) + e + g == a + b + c + d + e + g
  {
  }

  /** The identifier field of an encoded valid frame: exactly 8 or 3 lower-case digits, then the DLC digit. */
  lemma EncodedIdentifier(f: Frame, timestamp: bool, cr: bool, ms: nat)
    requires ValidFrame(f)
    ensures var line := EncodeFrame(f, timestamp, cr, ms);
      && |line| > DataOffset(f.ext)
      && (forall j :: 1 <= j <= IdDigits(f.ext) ==> IsCasedHexDigit(line[j], false))
      && ScanHex(line, 1, IdDigits(f.ext)) == Some(f.id)
      && line[DataOffset(f.ext)] == DecimalDigit(f.dlc)
  {
    ArgumentPieces(f);
    EncodePieces(f, timestamp, cr, ms);
    IdentifierAfterVerb(EncodeFrame(f, timestamp, cr, ms), Verb(f.ext, f.rtr), FormatHex(f.id, IdDigits(f.ext), false),
      DecimalDigit(f.dlc), if f.rtr then [] else DataHex(f.data), Timestamp(timestamp, ms), Terminator(cr),
      f.id, IdDigits(f.ext));
  }

  /** An identifier printed in exactly w lower-case digits after the verb scans back, and the character after it stays put. */
  lemma IdentifierAfterVerb(line: seq<char>, v: char, idHex: seq<char>, d: char, payload: seq<char>, ts: seq<char>,
                            term: seq<char>, id: nat, w: nat)
    requires 1 <= w && id < Pow16(w) && idHex == FormatHex(id, w, false)
    requires line == [v] + idHex + [d] + payload + ts + term
    ensures |line| > w + 1
    ensures forall j :: 1 <= j <= w ==> IsCasedHexDigit(line[j], false)
    ensures ScanHex(line, 1, w) == Some(id)
    ensures line[w + 1] == d
  {
    var post := [d] + payload + ts + term;
    assert line == [v] + idHex + post;
    FormatHexWidth(id, w, false);
    ScanAfter(line, [v], id, w, false, post);
    assert line[w + 1] == post[0];
  }

  /** A pair inside the middle piece of a line, found in the line. */
  lemma PairInLine<T>(line: seq<T>, head: seq<T>, s: seq<T>, tail: seq<T>, i: nat, pair: seq<T>)
    requires line == head + s + tail
    requires 2 * i + 2 <= |s| && s[2 * i..2 * i + 2] == pair
    ensures |head| + 2 * i + 2 <= |line| && line[|head| + 2 * i..|head| + 2 * i + 2] == pair
  {
    assert line[|head| + 2 * i..|head| + 2 * i + 2] == s[2 * i..2 * i + 2];
  }

  /** A byte in two upper-case digits at pair i of the piece after a prefix of length start scans back. */
  lemma PairScan(line: seq<char>, head: seq<char>, hex: seq<char>, tail: seq<char>, start: nat, i: nat, b: Byte)
    requires line == head + hex + tail && start == |head|
    requires 2 * i + 2 <= |hex| && hex[2 * i..2 * i + 2] == FormatHex(b, 2, true)
    ensures start + 2 * i + 2 <= |line|
    ensures IsCasedHexDigit(line[start + 2 * i], true) && IsCasedHexDigit(line[start + 2 * i + 1], true)
    ensures ScanHex(line, start + 2 * i, 2) == Some(b)
  {
    PairInLine(line, head, hex, tail, i, FormatHex(b, 2, true));
    ScanByte(line, start + 2 * i, b, true);
  }

  /** An encoded valid data frame is a head of 1 + DataOffset characters, the data pairs and a tail. */
  lemma DataLayout(f: Frame, timestamp: bool, cr: bool, ms: nat)
    requires ValidFrame(f) && !f.rtr
    ensures var head := [Verb(f.ext, f.rtr)] + FormatHex(f.id, IdDigits(f.ext), false) + [DecimalDigit(f.dlc)];
      && |head| == 1 + DataOffset(f.ext)
      && EncodeFrame(f, timestamp, cr, ms) == head + DataHex(f.data) + (Timestamp(timestamp, ms) + Terminator(cr))
  {
    var idHex := FormatHex(f.id, IdDigits(f.ext), false);
    ArgumentPieces(f);
    EncodePieces(f, timestamp, cr, ms);
    SixPieces([Verb(f.ext, f.rtr)], idHex, [DecimalDigit(f.dlc)],
      DataHex(f.data), Timestamp(timestamp, ms), Terminator(cr), EncodeFrame(f, timestamp, cr, ms));
  }

  /** Payload byte i of an encoded valid data frame: two upper-case digits right after the DLC. */
  lemma EncodedDataByte(f: Frame, timestamp: bool, cr: bool, ms: nat, i: nat)
    requires ValidFrame(f) && !f.rtr && i < f.dlc
    ensures var line := EncodeFrame(f, timestamp, cr, ms);
      var at := 1 + DataOffset(f.ext) + 2 * i;
      && at + 2 <= |line|
      && IsCasedHexDigit(line[at], true) && IsCasedHexDigit(line[at + 1], true)
      && ScanHex(line, at, 2) == Some(f.data[i])
  {
    DataLayout(f, timestamp, cr, ms);
    DataHexAt(f.data, i);
    PairScan(EncodeFrame(f, timestamp, cr, ms),
      [Verb(f.ext, f.rtr)] + FormatHex(f.id, IdDigits(f.ext), false) + [DecimalDigit(f.dlc)], DataHex(f.data),
      Timestamp(timestamp, ms) + Terminator(cr), 1 + DataOffset(f.ext), i, f.data[i]);
  }

  /**
   * The tail of an encoded valid frame: with timestamps on, 4 hex digits of
   * the uptime modulo 60000 (always below 0xEA60) before the terminator, and
   * nothing else; the line length is fixed by the frame and the two options.
   */
  lemma EncodedTail(f: Frame, timestamp: bool, cr: bool, ms: nat)
    requires ValidFrame(f)
    ensures var line := EncodeFrame(f, timestamp, cr, ms);
      var t := 1 + DataOffset(f.ext) + (if f.rtr then 0 else 2 * f.dlc);
      && |line| == t + (if timestamp then 4 else 0) + |Terminator(cr)|
      && (timestamp ==> ms % 60000 < 0xEA60 && ScanHex(line, t, 4) == Some(ms % 60000))
      && line[|line| - |Terminator(cr)|..] == Terminator(cr)
  {
    var line := EncodeFrame(f, timestamp, cr, ms);
    var head := [Verb(f.ext, f.rtr)] + FormatHex(f.id, IdDigits(f.ext), false) + [DecimalDigit(f.dlc)]
      + (if f.rtr then [] else DataHex(f.data));
    ArgumentPieces(f);
    EncodePieces(f, timestamp, cr, ms);
    assert line == head + Timestamp(timestamp, ms) + Terminator(cr);
    assert |head| == 1 + DataOffset(f.ext) + (if f.rtr then 0 else 2 * f.dlc);
    if timestamp {
      Pow16Values();
      FormatHexWidth(ms % 60000, 4, false);
      ScanAfter(line, head, ms % 60000, 4, false, Terminator(cr));
    }
    assert |line| == |head| + |Timestamp(timestamp, ms)| + |Terminator(cr)|;
    assert line[|line| - |Terminator(cr)|..] == Terminator(cr);
  }

  /** An identifier in w lower-case digits and a DLC digit, at the start of a line, scan back. */
  lemma HeaderScan(args: seq<char>, idHex: seq<char>, tail: seq<char>, id: nat, w: nat, dlc: nat)
    requires 1 <= w && id < Pow16(w) && dlc < 10
    requires idHex == FormatHex(id, w, false)
    requires args == idHex + [DecimalDigit(dlc)] + tail
    ensures ScanHex(args, 0, w) == Some(id) && ScanHex(args, w, 1) == Some(dlc)
  {
    assert args == [] + idHex + ([DecimalDigit(dlc)] + tail);
    ScanAfter(args, [], id, w, false, [DecimalDigit(dlc)] + tail);
    FormatHexWidth(id, w, false);
    SingleHex(dlc);
    assert dlc < Pow16(1) by {
      Pow16Values();
    }
    ScanAfter(args, idHex, dlc, 1, true, tail);
  }

  /** The identifier and DLC fields of encoded arguments scan back. */
  lemma DecodeHeader(f: Frame, rest: seq<char>)
    requires ValidFrame(f)
    ensures var args := Arguments(f) + rest;
      && ScanHex(args, 0, IdDigits(f.ext)) == Some(f.id)
      && ScanHex(args, IdDigits(f.ext), 1) == Some(f.dlc)
  {
    ArgumentPieces(f);
    HeaderBeforeRest(Arguments(f), FormatHex(f.id, IdDigits(f.ext), false), if f.rtr then [] else DataHex(f.data),
      rest, f.id, IdDigits(f.ext), f.dlc);
  }

  /** Arguments that start with an identifier field and a DLC digit keep them whatever follows. */
  lemma HeaderBeforeRest(args: seq<char>, idHex: seq<char>, payload: seq<char>, rest: seq<char>, id: nat, w: nat, dlc: nat)
    requires 1 <= w && id < Pow16(w) && dlc < 10
    requires idHex == FormatHex(id, w, false) && args == idHex + [DecimalDigit(dlc)] + payload
    ensures ScanHex(args + rest, 0, w) == Some(id) && ScanHex(args + rest, w, 1) == Some(dlc)
  {
    assert args + rest == idHex + [DecimalDigit(dlc)] + (payload + rest);
    HeaderScan(args + rest, idHex, payload + rest, id, w, dlc);
  }

  /** The payload pairs of encoded data-frame arguments scan back. */
  lemma DecodePairs(f: Frame, rest: seq<char>)
    requires ValidFrame(f) && !f.rtr
    ensures forall i :: 0 <= i < |f.data| ==>
      ScanHex(Arguments(f) + rest, DataOffset(f.ext) + 2 * i, 2) == Some(f.data[i])
  {
    ArgumentPieces(f);
    PairsAfterHead(Arguments(f), FormatHex(f.id, IdDigits(f.ext), false) + [DecimalDigit(f.dlc)], f.data, rest,
      DataOffset(f.ext));
  }

  /** The pairs of payload text that follows a head of length off scan back to the bytes, whatever comes after. */
  lemma PairsAfterHead(args: seq<char>, head: seq<char>, data: seq<Byte>, rest: seq<char>, off: nat)
    requires args == head + DataHex(data) && off == |head|
    ensures forall i :: 0 <= i < |data| ==> ScanHex(args + rest, off + 2 * i, 2) == Some(data[i])
  {
    forall i | 0 <= i < |data| ensures ScanHex(args + rest, off + 2 * i, 2) == Some(data[i]) {
      DataHexAt(data, i);
      PairScan(args + rest, head, DataHex(data), rest, off, i, data[i]);
    }
  }

  /**
   * Round trip: decoding the arguments of an encoded valid frame, whatever
   * follows them on the line, gives back the frame.
   */
  lemma DecodeArguments(f: Frame, rest: seq<char>)
    requires ValidFrame(f)
    ensures Decode(Arguments(f) + rest, f.ext, f.rtr) == Some(f)
  {
    var args := Arguments(f) + rest;
    DecodeHeader(f, rest);
    if !f.rtr {
      DecodePairs(f, rest);
      PayloadOfPairs(args, DataOffset(f.ext), f.data);
    }
  }

  /**
   * Round trip on whole lines: the verb of an encoded valid frame names its
   * extended and remote flags, and the decoder fed the rest of the line
   * reproduces identifier, flags, DLC and payload.
   */
  lemma EncodeThenDecode(f: Frame, timestamp: bool, cr: bool, ms: nat)
    requires ValidFrame(f)
    ensures var line := EncodeFrame(f, timestamp, cr, ms);
      && (line[0] == 'T' || line[0] == 'R') == f.ext
      && (line[0] == 'r' || line[0] == 'R') == f.rtr
      && Decode(line[1..], f.ext, f.rtr) == Some(f)
  {
    DropVerb(EncodeFrame(f, timestamp, cr, ms), Verb(f.ext, f.rtr), Arguments(f), Timestamp(timestamp, ms), Terminator(cr));
    DecodeArguments(f, Timestamp(timestamp, ms) + Terminator(cr));
  }

  /** A line that starts with one letter, after that letter. */
  lemma DropVerb<T>(line: seq<T>, v: T, a: seq<T>, b: seq<T>, c: seq<T>)
    requires line == [v] + a + b + c
    ensures line[0] == v && line[1..] == a + (b + c)
  {
  }
}
