/** What a SCoA stream means: the commands its bytes stand for and what each command
    does to the decoded raster (libcapt/Compression/Decoder/DecoderStreambuf.cpp). */
module Decoder {
  import opened Bytes
  import opened ScoaCmd

  /** The decoder's exceptions. `CopyPastWindow` is the model's own: a copy of more than a
      line reads past the end of the C++ buffer, and nothing is said about it there. */
  datatype DecodeError =
    | UnexpectedEof
    | OutOfRange
    | InsufficientBuffer
    | CopyPastWindow
    | UnknownCommand
    | OddVideoSize

  datatype Parsed = Parsed(cmd: Cmd, size: nat)

  /** The first command of `s`. All reads come before the bounds checks, as in the source. */
  function Parse(s: seq<byte>): (r: Result<Parsed, DecodeError>)
    ensures r.Ok? ==> 1 <= r.value.size <= |s| && InRange(r.value.cmd)
  {
    if s == [] then Err(UnexpectedEof)
    else
      var op, mid, low := s[0], Mid(s[0]), Low(s[0]);
      if op == 66 then Ok(Parsed(EOP, 1))
      else if op == 65 then Ok(Parsed(EOL, 1))
      else if op == 64 then Ok(Parsed(NOP, 1))
      else if Top(op) == 0 then
        if |s| < 1 + mid then Err(UnexpectedEof)
        else if mid < 1 then Err(OutOfRange)
        else Ok(Parsed(CopyThenRaw(low, s[1..1 + mid]), 1 + mid))
      else if Top(op) == 1 then
        if |s| < 2 then Err(UnexpectedEof)
        else if mid < 2 then Err(OutOfRange)
        else Ok(Parsed(CopyThenRepeat(low, mid, s[1]), 2))
      else if Top5(op) == 4 then
        if Five(op) == 0 then Err(OutOfRange)
        else Ok(Parsed(CopyLong(8 * Five(op)), 1))
      else if Top5(op) == 5 then ParseExtended(s)
      else if mid == 0 && low == 0 then Err(UnknownCommand)
      else if mid == 0 then Ok(Parsed(CopyShort(low), 1))
      else if low == 0 then Ok(Parsed(RepeatX(mid), 1))
      else if |s| < 2 + low then Err(UnexpectedEof)
      else if mid < 2 then Err(OutOfRange)
      else Ok(Parsed(RepeatThenRaw(mid, s[1], s[2..2 + low]), 2 + low))
  }

  /** A command that begins with an Extend byte: its count has five more high bits. */
  function ParseExtended(s: seq<byte>): (r: Result<Parsed, DecodeError>)
    requires |s| > 0
    ensures r.Ok? ==> 1 <= r.value.size <= |s| && InRange(r.value.cmd) && Extended(r.value.cmd)
  {
    if |s| < 2 then Err(UnexpectedEof)
    else
      var op, mid, low := s[1], Mid(s[1]), Low(s[1]);
      var long := 8 * Five(s[0]) + (if Top(op) == 1 then low else mid);
      if Top(op) == 0 then
        if long < 8 then Err(OutOfRange) else Ok(Parsed(RepeatXLong(long), 2))
      else if Top(op) == 2 then
        if |s| < 3 then Err(UnexpectedEof)
        else if long < 8 then Err(OutOfRange)
        else Ok(Parsed(CopyThenRepeatLong(low, long, s[2]), 3))
      else if Top(op) == 1 then
        if |s| < 3 + long then Err(UnexpectedEof)
        else if mid < 2 || long < 8 then Err(OutOfRange)
        else Ok(Parsed(RepeatThenRawLong(mid, s[2], s[3..3 + long]), 3 + long))
      else
        if |s| < 2 + long then Err(UnexpectedEof)
        else if long < 8 then Err(OutOfRange)
        else Ok(Parsed(CopyThenRawLong(low, s[2..2 + long]), 2 + long))
  }

  predicate Extended(c: Cmd) {
    c.CopyThenRawLong? || c.CopyThenRepeatLong? || c.RepeatThenRawLong? || c.RepeatXLong?
  }

  lemma ParsePrintShort(c: Cmd, rest: seq<byte>)
    requires InRange(c) && !Extended(c)
    ensures Parse(Print(c) + rest) == Ok(Parsed(c, |Print(c)|))
  {
    hide Op, Op5, Top, Mid, Low, Top5, Five;
    match c
    case CopyLong(copy) => Op5Fields(4, copy / 8);
    case CopyThenRaw(copy, raw) =>
      OpFields(0, |raw|, copy);
      assert (Print(c) + rest)[1..1 + |raw|] == raw;
    case CopyThenRepeat(copy, count, _) => OpFields(1, count, copy);
    case RepeatThenRaw(count, _, raw) =>
      OpFields(3, count, |raw|);
      FieldsOp(Op(3, count, |raw|));
      assert (Print(c) + rest)[2..2 + |raw|] == raw;
    case CopyShort(copy) =>
      OpFields(3, 0, copy);
      FieldsOp(Op(3, 0, copy));
    case RepeatX(count) =>
      OpFields(3, count, 0);
      FieldsOp(Op(3, count, 0));
    case _ =>
  }

  lemma ParsePrintExtended(c: Cmd, rest: seq<byte>)
    requires InRange(c) && Extended(c)
    ensures Parse(Print(c) + rest) == Ok(Parsed(c, |Print(c)|))
  {
    hide Op, Op5, Top, Mid, Low, Top5, Five;
    var n := if c.CopyThenRawLong? || c.RepeatThenRawLong? then |c.raw| else c.count;
    Op5Fields(5, n / 8);
    match c
    case CopyThenRawLong(copy, raw) =>
      OpFields(3, n % 8, copy);
      assert (Print(c) + rest)[2..2 + n] == raw;
    case RepeatThenRawLong(count, _, raw) =>
      OpFields(1, count, n % 8);
      assert (Print(c) + rest)[3..3 + n] == raw;
    case CopyThenRepeatLong(copy, _, _) => OpFields(2, n % 8, copy);
    case RepeatXLong(_) => OpFields(0, n % 8, 0);
  }

  /** Every encoder's output, whatever follows it, is read back as that command and no more:
      opcode classes never collide. */
  lemma ParsePrint(c: Cmd, rest: seq<byte>)
    requires InRange(c)
    ensures Parse(Print(c) + rest) == Ok(Parsed(c, |Print(c)|))
  {
    hide Parse, Print;
    if Extended(c) {
      ParsePrintExtended(c, rest);
    } else {
      ParsePrintShort(c, rest);
    }
  }

  lemma PrintParseShort(s: seq<byte>)
    requires Parse(s).Ok? && !Extended(Parse(s).value.cmd)
    ensures var Parsed(c, size) := Parse(s).value; s[..size] == Print(c)
  {
    hide ParseExtended, Op, Op5, Top, Mid, Low, Top5, Five;
    FieldsOp(s[0]);
    var Parsed(c, size) := Parse(s).value;
    if c.CopyThenRaw? {
      assert s[..size] == [s[0]] + c.raw;
    } else if c.RepeatThenRaw? {
      assert s[..size] == [s[0], s[1]] + c.raw;
    } else if c.CopyThenRepeat? {
      assert s[..size] == [s[0], s[1]];
    } else {
      assert s[..size] == [s[0]];
    }
  }

  lemma ExtendByte(s: seq<byte>)
    requires Parse(s).Ok? && Extended(Parse(s).value.cmd)
    ensures |s| >= 2 && Top5(s[0]) == 5 && Parse(s) == ParseExtended(s)
  {
    hide Top, Mid, Low, Top5, Five;
  }

  lemma PrintParseExtended(s: seq<byte>)
    requires Parse(s).Ok? && Extended(Parse(s).value.cmd)
    ensures var Parsed(c, size) := Parse(s).value;
            && size == |Print(c)|
            && (s[..size] == Print(c) <==> (c.RepeatXLong? ==> Low(s[1]) == 0))
  {
    hide Parse, Op, Op5, Top, Mid, Low, Top5, Five;
    ExtendByte(s);
    FieldsOp(s[0]);
    FieldsOp(s[1]);
    var Parsed(c, size) := ParseExtended(s).value;
    match c
    case CopyThenRawLong(_, raw) => assert s[..size] == [s[0], s[1]] + raw;
    case RepeatThenRawLong(_, _, raw) => assert s[..size] == [s[0], s[1], s[2]] + raw;
    case CopyThenRepeatLong(_, _, _) => assert s[..size] == [s[0], s[1], s[2]];
    case RepeatXLong(count) =>
      assert s[..size] == [s[0], s[1]];
      OpFields(0, count % 8, 0);
  }

  /** Conversely, the bytes a command is read from are the encoder's bytes for it, except
      that the decoder ignores the three low bits of RepeatXLong's second byte. */
  lemma PrintParse(s: seq<byte>)
    requires Parse(s).Ok?
    ensures var Parsed(c, size) := Parse(s).value;
            && size == |Print(c)|
            && (s[..size] == Print(c) <==> (c.RepeatXLong? ==> s[1] % 8 == 0))
  {
    hide Parse, Print;
    if Extended(Parse(s).value.cmd) {
      ExtendByte(s);
      PrintParseExtended(s);
    } else {
      PrintParseShort(s);
    }
  }

  /** `count` bytes of the sliding window that starts a line before the end. */
  function CopyWindow(out: seq<byte>, count: nat, lineSize: nat): Result<seq<byte>, DecodeError> {
    if count == 0 then Ok(out)
    else if |out| < lineSize then Err(InsufficientBuffer)
    else if count > lineSize then Err(CopyPastWindow)
    else Ok(out + out[|out| - lineSize..][..count])
  }

  function Then(r: Result<seq<byte>, DecodeError>, s: seq<byte>): Result<seq<byte>, DecodeError> {
    if r.Ok? then Ok(r.value + s) else r
  }

  /** The effect of one command on the raster decoded so far. */
  function Exec(c: Cmd, out: seq<byte>, lineSize: nat): Result<seq<byte>, DecodeError>
    requires lineSize >= 1
  {
    match c
    case CopyLong(copy) => CopyWindow(out, copy, lineSize)
    case CopyShort(copy) => CopyWindow(out, copy, lineSize)
    case CopyThenRaw(copy, raw) => Then(CopyWindow(out, copy, lineSize), raw)
    case CopyThenRawLong(copy, raw) => Then(CopyWindow(out, copy, lineSize), raw)
    case CopyThenRepeat(copy, count, b) => Then(CopyWindow(out, copy, lineSize), Fill(count, b))
    case CopyThenRepeatLong(copy, count, b) => Then(CopyWindow(out, copy, lineSize), Fill(count, b))
    case RepeatThenRaw(count, b, raw) => Ok(out + Fill(count, b) + raw)
    case RepeatThenRawLong(count, b, raw) => Ok(out + Fill(count, b) + raw)
    case RepeatX(count) => Ok(out + Fill(count, REPEAT_X_BYTE))
    case RepeatXLong(count) => Ok(out + Fill(count, REPEAT_X_BYTE))
    case EOL => CopyWindow(out, lineSize - |out| % lineSize, lineSize)
    case EOP => Ok(out)
    case NOP => Ok(out)
  }

  /** A command only appends, and every command but NOP and EOP appends something. */
  lemma ExecGrows(c: Cmd, out: seq<byte>, lineSize: nat)
    requires lineSize >= 1 && Exec(c, out, lineSize).Ok?
    ensures out <= Exec(c, out, lineSize).value
    ensures InRange(c) && c != NOP && c != EOP ==> |Exec(c, out, lineSize).value| > |out|
  {
  }

  /** A list of commands run one after the other. */
  function Run(cs: seq<Cmd>, out: seq<byte>, lineSize: nat): Result<seq<byte>, DecodeError>
    requires lineSize >= 1
  {
    if cs == [] then Ok(out)
    else
      var r := Exec(cs[0], out, lineSize);
      if r.Err? then r else Run(cs[1..], r.value, lineSize)
  }

  lemma {:induction false} RunAppend(a: seq<Cmd>, b: seq<Cmd>, out: seq<byte>, lineSize: nat)
    requires lineSize >= 1
    ensures Run(a + b, out, lineSize) ==
            var r := Run(a, out, lineSize); if r.Err? then r else Run(b, r.value, lineSize)
  {
    if a == [] {
      assert a + b == b;
    } else {
      assert (a + b)[0] == a[0] && (a + b)[1..] == a[1..] + b;
      var r := Exec(a[0], out, lineSize);
      if r.Ok? {
        RunAppend(a[1..], b, r.value, lineSize);
      }
    }
  }

  // ----- one line, and one page

  datatype LineOutcome =
    | LineDone(rest: seq<byte>, out: seq<byte>, videoSize: nat)
    | PageEnd(rest: seq<byte>, out: seq<byte>)
    | LineFailed(error: DecodeError)

  /** Commands are taken until the raster has `target` bytes, or an EOP comes. The tally of
      command bytes, which leaves EOP itself out, must be odd at an EOP. */
  function DecodeLine(s: seq<byte>, out: seq<byte>, lineSize: nat, target: nat, videoSize: nat): (r: LineOutcome)
    requires lineSize >= 1
    ensures r.PageEnd? ==> |r.rest| <= |s|
    ensures r.LineDone? ==> |r.out| >= target && |r.rest| <= |s| && (|out| < target ==> |r.rest| < |s|)
    decreases |s|
  {
    if |out| >= target then LineDone(s, out, videoSize)
    else
      match Parse(s)
      case Err(e) => LineFailed(e)
      case Ok(Parsed(c, size)) =>
        match Exec(c, out, lineSize)
        case Err(e) => LineFailed(e)
        case Ok(out') =>
          if c != EOP then DecodeLine(s[size..], out', lineSize, target, videoSize + size)
          else if (videoSize + 1) % 2 != 0 then LineFailed(OddVideoSize)
          else PageEnd(s[size..], out')
  }

  /** How reading a decoded page ends: at its EOP, or by an exception. */
  datatype Ending = CleanEof | Thrown(error: DecodeError)

  datatype PageOutcome = PageOutcome(raster: seq<byte>, ending: Ending, rest: seq<byte>)

  /** The last line of the buffer is delivered after each successful `DecodeLine`. */
  function DecodePage(s: seq<byte>, out: seq<byte>, lineSize: nat, videoSize: nat): PageOutcome
    requires lineSize >= 1
    decreases |s|
  {
    match DecodeLine(s, out, lineSize, |out| + lineSize, videoSize)
    case LineFailed(e) => PageOutcome([], Thrown(e), [])
    case PageEnd(rest, _) => PageOutcome([], CleanEof, rest)
    case LineDone(rest, out', videoSize') =>
      var more := DecodePage(rest, out', lineSize, videoSize');
      PageOutcome(out'[|out'| - lineSize..] + more.raster, more.ending, more.rest)
  }
}
