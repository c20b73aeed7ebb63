/** The stateful decoder (libcapt/Compression/Decoder/DecoderStreambuf.cpp), proved to
    compute what module Decoder says a stream means. */
module DecoderStreambufs {
  import opened Bytes
  import opened Bits
  import opened Streams
  import opened ScoaCmd
  import opened Decoder

  predicate InBounds(value: nat, min: nat, max: nat) {
    min <= value <= max
  }

  class DecoderStreambuf {
    const stream: ByteStream
    const lineSize: nat
    var buffer: seq<byte>
    var videoSize: nat
    // the get area: what is left to read of the line decoded last
    var gptr: nat
    var egptr: nat

    ghost predicate Valid()
      reads this, stream
    {
      stream.Valid() && lineSize >= 1 && gptr <= egptr <= |buffer|
    }

    constructor (stream: ByteStream, lineSize: nat)
      requires stream.Valid() && lineSize >= 1
      ensures Valid() && this.stream == stream && this.lineSize == lineSize
      ensures buffer == [] && videoSize == 0 && gptr == egptr
    {
      this.stream, this.lineSize := stream, lineSize;
      buffer, videoSize, gptr, egptr := [], 0, 0, 0;
    }

    method MustGet() returns (r: Result<byte, DecodeError>)
      requires Valid()
      modifies stream`pos
      ensures Valid()
      ensures if old(stream.Rest()) == [] then r == Err(UnexpectedEof)
              else r == Ok(old(stream.Rest())[0]) && stream.Rest() == old(stream.Rest())[1..]
    {
      var v := stream.Sbumpc();
      r := if v == None then Err(UnexpectedEof) else Ok(v.value);
    }

    method MustRead(n: nat) returns (r: Result<seq<byte>, DecodeError>)
      requires Valid()
      modifies stream`pos
      ensures Valid()
      ensures if |old(stream.Rest())| < n then r == Err(UnexpectedEof)
              else r == Ok(old(stream.Rest())[..n]) && stream.Rest() == old(stream.Rest())[n..]
    {
      var s := stream.Sgetn(n);
      r := if |s| != n then Err(UnexpectedEof) else Ok(s);
    }

    method Repeat(count: nat, b: byte)
      modifies this`buffer
      ensures buffer == old(buffer) + Fill(count, b)
    {
      if count == 0 {
        return;
      }
      buffer := buffer + Fill(count, b);
    }

    method CopyBytes(count: nat) returns (r: Result<(), DecodeError>)
      modifies this`buffer
      ensures var c := CopyWindow(old(buffer), count, lineSize);
              if c.Err? then r == Err(c.error) && buffer == old(buffer) else r.Ok? && buffer == c.value
    {
      if count == 0 {
        return Ok(());
      }
      if |buffer| < lineSize {
        return Err(InsufficientBuffer);
      }
      var start := |buffer| - lineSize;
      if start + count > |buffer| {
        return Err(CopyPastWindow);
      }
      assert buffer[start..start + count] == buffer[start..][..count];
      buffer := buffer + buffer[start..start + count];
      return Ok(());
    }

    method RawBytes(data: seq<byte>)
      modifies this`buffer
      ensures buffer == old(buffer) + data
    {
      if |data| == 0 {
        return;
      }
      buffer := buffer + data;
    }

    method EndLine() returns (r: Result<(), DecodeError>)
      requires lineSize >= 1
      modifies this`buffer
      ensures var c := Exec(EOL, old(buffer), lineSize);
              if c.Err? then r == Err(c.error) && buffer == old(buffer) else r.Ok? && buffer == c.value
      ensures old(buffer) <= buffer
    {
      r := CopyBytes(lineSize - |buffer| % lineSize);
    }

    /** The result and the buffer after command `c`, of `size` bytes, was carried out. */
    ghost predicate Performed(c: Cmd, size: nat, before: seq<byte>, r: Result<nat, DecodeError>)
      requires lineSize >= 1
      reads this`buffer
    {
      match Exec(c, before, lineSize)
      case Err(e) => r == Err(e) && buffer == before
      case Ok(after) => r == Ok(size) && buffer == after
    }

    method CopyThenRepeatBytes(ghost c: Cmd, copyCount: nat, repeatCount: nat, repeatByte: byte, size: nat)
      returns (r: Result<nat, DecodeError>)
      requires lineSize >= 1
      requires c == CopyThenRepeat(copyCount, repeatCount, repeatByte)
            || c == CopyThenRepeatLong(copyCount, repeatCount, repeatByte)
      modifies this`buffer
      ensures Performed(c, size, old(buffer), r)
      ensures old(buffer) <= buffer
    {
      var ok :- CopyBytes(copyCount);
      Repeat(repeatCount, repeatByte);
      return Ok(size);
    }

    method CopyThenRawBytes(ghost c: Cmd, copyCount: nat, rawData: seq<byte>, size: nat)
      returns (r: Result<nat, DecodeError>)
      requires lineSize >= 1
      requires c == CopyThenRaw(copyCount, rawData) || c == CopyThenRawLong(copyCount, rawData)
      modifies this`buffer
      ensures Performed(c, size, old(buffer), r)
      ensures old(buffer) <= buffer
    {
      var ok :- CopyBytes(copyCount);
      RawBytes(rawData);
      return Ok(size);
    }

    method RepeatThenRawBytes(ghost c: Cmd, repeatCount: nat, repeatByte: byte, rawData: seq<byte>, size: nat)
      returns (r: Result<nat, DecodeError>)
      requires lineSize >= 1
      requires c == RepeatThenRaw(repeatCount, repeatByte, rawData)
            || c == RepeatThenRawLong(repeatCount, repeatByte, rawData)
      modifies this`buffer
      ensures Performed(c, size, old(buffer), r)
      ensures old(buffer) <= buffer
    {
      Repeat(repeatCount, repeatByte);
      RawBytes(rawData);
      return Ok(size);
    }

    method CopyOnly(ghost c: Cmd, copyCount: nat) returns (r: Result<nat, DecodeError>)
      requires lineSize >= 1
      requires c == CopyShort(copyCount) || c == CopyLong(copyCount)
      modifies this`buffer
      ensures Performed(c, 1, old(buffer), r)
      ensures old(buffer) <= buffer
    {
      var ok :- CopyBytes(copyCount);
      return Ok(1);
    }

    /** What one call of `DecodeNext` must do, given the input and the buffer before it:
        the command is the one `Parse` finds and its effect is the one `Exec` gives. */
    ghost predicate Decoded(input: seq<byte>, before: seq<byte>, r: Result<nat, DecodeError>)
      requires Valid()
      reads this, stream
    {
      match Parse(input)
      case Err(e) => r == Err(e) && buffer == before
      case Ok(Parsed(c, size)) =>
        && Performed(c, if c == EOP then 0 else size, before, r)
        && (r.Ok? ==> stream.Rest() == input[size..])
    }

    method DecodeNext() returns (r: Result<nat, DecodeError>)
      requires Valid()
      modifies stream`pos, this`buffer
      ensures Valid()
      ensures Decoded(old(stream.Rest()), old(buffer), r)
    {
      hide And, Op, Op5, Top, Mid, Low, Top5, Five, ParseExtended, CopyWindow;
      ghost var input := stream.Rest();
      var cmd :- MustGet();
      MaskFields(cmd);
      if cmd == 0x42 {
        return Ok(0);
      } else if cmd == 0x41 {
        var ok :- EndLine();
        return Ok(1);
      } else if cmd == 0x40 {
        return Ok(1);
      }
      hide Exec;
      if And(cmd, 0xe0) == 0xa0 {
        r := DecodeExtended(input, cmd);
      } else if And(cmd, 0xe0) == 0x80 {
        var copyCount := U8(Shl3(And(cmd, 0x1f)));
        if !InBounds(copyCount, 8, 248) {
          return Err(OutOfRange);
        }
        r := CopyOnly(CopyLong(copyCount), copyCount);
      } else if And(cmd, 0xc0) == 0x40 {
        var copyCount := And(cmd, 7);
        var repeatCount := And(Shr3(cmd), 7);
        var repeatByte :- MustGet();
        if !(InBounds(copyCount, 0, 7) && InBounds(repeatCount, 2, 7)) {
          return Err(OutOfRange);
        }
        ghost var c := CopyThenRepeat(copyCount, repeatCount, repeatByte);
        r := CopyThenRepeatBytes(c, copyCount, repeatCount, repeatByte, 2);
      } else if And(cmd, 0xc0) == 0 {
        var copyCount := And(cmd, 7);
        var rawCount := And(Shr3(cmd), 7);
        var rawData :- MustRead(rawCount);
        if !(InBounds(copyCount, 0, 7) && InBounds(rawCount, 1, 7)) {
          return Err(OutOfRange);
        }
        ghost var c := CopyThenRaw(copyCount, rawData);
        assert input[1..1 + rawCount] == rawData;
        r := CopyThenRawBytes(c, copyCount, rawData, 1 + rawCount);
      } else {
        r := DecodeShort(input, cmd);
      }
    }

    /** The `0xc0` class: RepeatX, CopyShort and RepeatThenRaw. */
    method DecodeShort(ghost input: seq<byte>, cmd: byte) returns (r: Result<nat, DecodeError>)
      requires Valid()
      requires input == [cmd] + stream.Rest() && Top5(cmd) >= 6 && !(64 <= cmd <= 66)
      modifies stream`pos, this`buffer
      ensures Valid()
      ensures Decoded(input, old(buffer), r)
    {
      hide And, Op, Op5, Top, Mid, Low, Top5, Five, ParseExtended, CopyWindow;
      MaskFields(cmd);
      var copyCount := And(cmd, 7);
      var repeatCount := And(Shr3(cmd), 7);
      if copyCount != 0 && repeatCount == 0 {
        r := CopyOnly(CopyShort(copyCount), copyCount);
      } else if copyCount == 0 && repeatCount != 0 {
        assert InBounds(repeatCount, 1, 7);
        Repeat(repeatCount, REPEAT_X_BYTE);
        return Ok(1);
      } else if copyCount != 0 && repeatCount != 0 {
        var rawCount := copyCount;
        var repeatByte :- MustGet();
        var rawData :- MustRead(rawCount);
        if !(InBounds(repeatCount, 2, 7) && InBounds(rawCount, 1, 7)) {
          return Err(OutOfRange);
        }
        ghost var c := RepeatThenRaw(repeatCount, repeatByte, rawData);
        assert input[2..2 + rawCount] == rawData;
        r := RepeatThenRawBytes(c, repeatCount, repeatByte, rawData, 2 + rawCount);
      } else {
        return Err(UnknownCommand);
      }
    }

    /** The commands after an Extend byte. */
    method DecodeExtended(ghost input: seq<byte>, extend: byte) returns (r: Result<nat, DecodeError>)
      requires Valid()
      requires input == [extend] + stream.Rest() && Top5(extend) == 5
      modifies stream`pos, this`buffer
      ensures Valid()
      ensures Decoded(input, old(buffer), r)
    {
      hide And, Op, Op5, Top, Mid, Low, Top5, Five, Exec;
      MaskFields(extend);
      ParseAfterExtend(input);
      hide Parse;
      var extendCount := U8(Shl3(And(extend, 0x1f)));
      var cmd :- MustGet();
      MaskFields(cmd);
      hide ParseExtended;
      if And(cmd, 0xc0) == 0 || And(cmd, 0xc0) == 0x80 {
        r := DecodeRepeatLong(input, extendCount, cmd);
      } else if And(cmd, 0xc0) == 0x40 {
        r := DecodeRepeatThenRawLong(input, extendCount, cmd);
      } else {
        r := DecodeCopyThenRawLong(input, extendCount, cmd);
      }
    }

    /** RepeatXLong and CopyThenRepeatLong. */
    method DecodeRepeatLong(ghost input: seq<byte>, extendCount: byte, cmd: byte) returns (r: Result<nat, DecodeError>)
      requires Valid()
      requires |input| >= 2 && input[1] == cmd && input[2..] == stream.Rest()
      requires Parse(input) == ParseExtended(input) && extendCount == 8 * Five(input[0])
      requires Top(cmd) == 0 || Top(cmd) == 2
      modifies stream`pos, this`buffer
      ensures Valid()
      ensures Decoded(input, old(buffer), r)
    {
      hide And, Op, Op5, Top, Mid, Low, Top5, Five, Parse, CopyWindow;
      MaskFields(cmd);
      var repeatCount := U8(extendCount + And(Shr3(cmd), 7));
      if And(cmd, 0xc0) == 0 {
        if !InBounds(repeatCount, 8, 255) {
          return Err(OutOfRange);
        }
        Repeat(repeatCount, REPEAT_X_BYTE);
        return Ok(2);
      }
      var copyCount := And(cmd, 7);
      var repeatByte :- MustGet();
      if !(InBounds(copyCount, 0, 7) && InBounds(repeatCount, 8, 255)) {
        return Err(OutOfRange);
      }
      ghost var c := CopyThenRepeatLong(copyCount, repeatCount, repeatByte);
      r := CopyThenRepeatBytes(c, copyCount, repeatCount, repeatByte, 3);
    }

    method DecodeRepeatThenRawLong(ghost input: seq<byte>, extendCount: byte, cmd: byte)
      returns (r: Result<nat, DecodeError>)
      requires Valid()
      requires |input| >= 2 && input[1] == cmd && input[2..] == stream.Rest()
      requires Parse(input) == ParseExtended(input) && extendCount == 8 * Five(input[0])
      requires Top(cmd) == 1
      modifies stream`pos, this`buffer
      ensures Valid()
      ensures Decoded(input, old(buffer), r)
    {
      hide And, Op, Op5, Top, Mid, Low, Top5, Five, Parse, Exec;
      MaskFields(cmd);
      var rawCount: nat := U8(extendCount + And(cmd, 7));
      var repeatCount := And(Shr3(cmd), 7);
      var repeatByte :- MustGet();
      var rawData :- MustRead(rawCount);
      if !(InBounds(repeatCount, 2, 7) && InBounds(rawCount, 8, 255)) {
        return Err(OutOfRange);
      }
      ghost var c := RepeatThenRawLong(repeatCount, repeatByte, rawData);
      assert input[3..3 + rawCount] == rawData;
      r := RepeatThenRawBytes(c, repeatCount, repeatByte, rawData, 3 + rawCount);
    }

    method DecodeCopyThenRawLong(ghost input: seq<byte>, extendCount: byte, cmd: byte)
      returns (r: Result<nat, DecodeError>)
      requires Valid()
      requires |input| >= 2 && input[1] == cmd && input[2..] == stream.Rest()
      requires Parse(input) == ParseExtended(input) && extendCount == 8 * Five(input[0])
      requires Top(cmd) == 3
      modifies stream`pos, this`buffer
      ensures Valid()
      ensures Decoded(input, old(buffer), r)
    {
      hide And, Op, Op5, Top, Mid, Low, Top5, Five, Parse, Exec;
      MaskFields(cmd);
      var copyCount := And(cmd, 7);
      var rawCount: nat := U8(extendCount + And(Shr3(cmd), 7));
      var rawData :- MustRead(rawCount);
      if !(InBounds(copyCount, 0, 7) && InBounds(rawCount, 8, 255)) {
        return Err(OutOfRange);
      }
      ghost var c := CopyThenRawLong(copyCount, rawData);
      assert input[2..2 + rawCount] == rawData;
      r := CopyThenRawBytes(c, copyCount, rawData, 2 + rawCount);
    }

    // ----- lines and pages

    /** Decodes one line; `false` at the end of the page. */
    method DecodeLine() returns (r: Result<bool, DecodeError>)
      requires Valid()
      modifies stream`pos, this`buffer, this`videoSize
      ensures Valid() && old(buffer) <= buffer
      ensures match Decoder.DecodeLine(old(stream.Rest()), old(buffer), lineSize,
                                       |old(buffer)| + lineSize, old(videoSize))
              case LineFailed(e) => r == Err(e)
              case PageEnd(rest, out) => r == Ok(false) && stream.Rest() == rest && buffer == out && videoSize == 0
              case LineDone(rest, out, videoSize') =>
                r == Ok(true) && stream.Rest() == rest && buffer == out && videoSize == videoSize'
    {
      hide Parse, Exec;
      ghost var target := |buffer| + lineSize;
      ghost var outcome := Decoder.DecodeLine(stream.Rest(), buffer, lineSize, target, videoSize);
      var start := |buffer|;
      while |buffer| < start + lineSize
        invariant Valid() && old(buffer) <= buffer
        invariant outcome == Decoder.DecodeLine(stream.Rest(), buffer, lineSize, target, videoSize)
        decreases |stream.Rest()|
      {
        ghost var before, input := buffer, stream.Rest();
        var c :- DecodeNext();
        ExecGrows(Parse(input).value.cmd, before, lineSize);
        videoSize := videoSize + c;
        if c == 0 {
          if (videoSize + 1) % 2 != 0 {
            return Err(OddVideoSize);
          }
          videoSize := 0;
          return Ok(false);
        }
      }
      return Ok(true);
    }

    /** `underflow`: the get area becomes the last line of the buffer. */
    method Underflow() returns (r: Result<Option<byte>, DecodeError>)
      requires Valid()
      modifies stream`pos, this
      ensures Valid()
      ensures old(gptr < egptr) ==> unchanged(this) && unchanged(stream) && r == Ok(Some(buffer[gptr]))
      ensures old(gptr == egptr) ==>
                match Decoder.DecodeLine(old(stream.Rest()), old(buffer), lineSize,
                                         |old(buffer)| + lineSize, old(videoSize))
                case LineFailed(e) => r == Err(e)
                case PageEnd(rest, out) =>
                  r == Ok(None) && stream.Rest() == rest && buffer == out && videoSize == 0 && gptr == egptr
                case LineDone(rest, out, videoSize') =>
                  && r == Ok(Some(out[|out| - lineSize]))
                  && stream.Rest() == rest && buffer == out && videoSize == videoSize'
                  && gptr == |out| - lineSize && egptr == |out|
    {
      if gptr < egptr {
        return Ok(Some(buffer[gptr]));
      }
      var more :- DecodeLine();
      if !more {
        return Ok(None);
      }
      gptr := |buffer| - lineSize;
      egptr := |buffer|;
      return Ok(Some(buffer[gptr]));
    }

    /** Everything still to be read of the page, and how it ends. */
    ghost function Pending(): PageOutcome
      reads this, stream
      requires Valid()
    {
      var page := DecodePage(stream.Rest(), buffer, lineSize, videoSize);
      PageOutcome(buffer[gptr..egptr] + page.raster, page.ending, page.rest)
    }

    /** Sees to it that the get area has a byte, if the page has one. */
    method Refill() returns (r: Result<bool, DecodeError>)
      requires Valid()
      modifies stream`pos, this
      ensures Valid()
      ensures match r
              case Err(e) => old(Pending()).raster == [] && old(Pending()).ending == Thrown(e)
              case Ok(more) =>
                && stream.pos >= old(stream.pos)
                && if more then
                     && gptr < egptr && Pending() == old(Pending())
                     && (old(gptr == egptr) ==> egptr - gptr == lineSize)
                   else old(Pending()) == PageOutcome([], CleanEof, stream.Rest()) && gptr == egptr
    {
      hide Parse, Exec, Decoder.DecodeLine;
      if gptr < egptr {
        return Ok(true);
      }
      var c :- Underflow();
      return Ok(c.Some?);
    }

    /** The next bytes, up to `k` of them, out of the get area or out of a new line. */
    method TakeSome(k: nat) returns (r: Result<seq<byte>, DecodeError>)
      requires Valid() && k >= 1
      modifies stream`pos, this
      ensures Valid()
      ensures match r
              case Err(e) => old(Pending()).raster == [] && old(Pending()).ending == Thrown(e)
              case Ok(chunk) =>
                && |chunk| <= k && stream.pos >= old(stream.pos)
                && if chunk == [] then old(Pending()) == PageOutcome([], CleanEof, stream.Rest()) && gptr == egptr
                   else
                     && old(Pending()) == PageOutcome(chunk + Pending().raster, Pending().ending, Pending().rest)
                     && (old(gptr == egptr) && k == lineSize ==> |chunk| == k && gptr == egptr)
    {
      hide DecodePage;
      var more :- Refill();
      if !more {
        return Ok([]);
      }
      var n := Min(k, egptr - gptr);
      var chunk := buffer[gptr..gptr + n];
      assert buffer[gptr..egptr] == chunk + buffer[gptr + n..egptr];
      Assoc(chunk, buffer[gptr + n..egptr], DecodePage(stream.Rest(), buffer, lineSize, videoSize).raster);
      gptr := gptr + n;
      return Ok(chunk);
    }

    /** `std::streambuf::sgetn`. Over any sequence of reads that the page is long enough for, the
        decoder is a plain stream of the page. A read past its end comes up short, or throws. */
    method Sgetn(n: nat) returns (r: Result<seq<byte>, DecodeError>)
      requires Valid()
      modifies stream`pos, this
      ensures Valid()
      ensures var page := old(Pending());
              if n <= |page.raster| then
                r == Ok(page.raster[..n]) && Pending() == PageOutcome(page.raster[n..], page.ending, page.rest)
              else
                match page.ending
                case Thrown(e) => r == Err(e)
                case CleanEof => r == Ok(page.raster) && stream.Rest() == page.rest
      ensures r.Ok? ==> stream.pos >= old(stream.pos)
      ensures old(gptr == egptr) && n == lineSize && r.Ok? && r.value != [] ==> |r.value| == n && gptr == egptr
    {
      hide Pending;
      ghost var page := Pending();
      var s: seq<byte> := [];
      assert page.raster == [] + page.raster;
      while |s| < n
        invariant Valid() && |s| <= n && stream.pos >= old(stream.pos)
        invariant page == PageOutcome(s + Pending().raster, Pending().ending, Pending().rest)
        invariant old(gptr == egptr) && n == lineSize ==> gptr == egptr && (s == [] || |s| == n)
        decreases n - |s|
      {
        var chunk := TakeSome(n - |s|);
        if chunk.Err? {
          return Err(chunk.error);
        }
        if chunk.value == [] {
          assert s + [] == s;
          return Ok(s);
        }
        Assoc(s, chunk.value, Pending().raster);
        s := s + chunk.value;
      }
      return Ok(s);
    }

    /** The page loop of the test decoder (tests/Compression/decoder.cpp:111-118): reads of
        `lineSize` bytes, each one get area, until a read gives nothing. */
    method Drain() returns (raster: seq<byte>, ending: Ending)
      requires Valid() && gptr == egptr
      modifies stream`pos, this
      ensures Valid()
      ensures raster == old(Pending()).raster && ending == old(Pending()).ending
      ensures ending == CleanEof ==> stream.Rest() == old(Pending()).rest
    {
      hide Pending;
      ghost var page := Pending();
      raster := [];
      assert page.raster == [] + page.raster;
      while true
        invariant Valid() && gptr == egptr
        invariant page == PageOutcome(raster + Pending().raster, Pending().ending, Pending().rest)
        decreases |Pending().raster|
      {
        WholeLines();
        ghost var left := Pending().raster;
        var line := Sgetn(lineSize);
        if line.Err? {
          return raster, Thrown(line.error);
        }
        if line.value == [] {
          return raster, CleanEof;
        }
        Assoc(raster, line.value, Pending().raster);
        assert left == line.value + Pending().raster;
        raster := raster + line.value;
      }
    }

    /** Between two lines, at least a line is left or nothing. */
    lemma WholeLines()
      requires Valid() && gptr == egptr
      ensures Pending().raster == [] || |Pending().raster| >= lineSize
      ensures Pending() == DecodePage(stream.Rest(), buffer, lineSize, videoSize)
    {
      hide Parse, Exec, Decoder.DecodeLine;
    }
  }

  /** The decoder's masks and shifts are the fields of an opcode byte. */
  lemma MaskFields(b: byte)
    ensures And(b, 0xe0) == 32 * Top5(b) && And(b, 0xc0) == 64 * Top(b)
    ensures And(b, 0x1f) == Five(b) && And(b, 7) == Low(b) && And(Shr3(b), 7) == Mid(b)
    ensures Top(b) == Top5(b) / 2
  {
    hide And, Op, Op5;
    OpcodeFields(b);
    FieldsOp(b);
  }

  lemma ParseAfterExtend(s: seq<byte>)
    requires |s| > 0 && Top5(s[0]) == 5
    ensures Parse(s) == ParseExtended(s)
  {
    hide ParseExtended;
  }
}
