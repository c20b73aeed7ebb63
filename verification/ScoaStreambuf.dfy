/** The encoder: from the segments of a line to commands, and from a raster to the SCoA
    stream (libcapt/Compression/ScoaStreambuf.cpp). */
module Encoder {
  import opened Bytes
  import opened ScoaCmd
  import opened ScoaSplit
  import opened Segments

  predicate InLine(fs: seq<Func>, line: seq<byte>) {
    forall f | f in fs :: f.index < f.End() <= |line|
  }

  /** The bytes of the line a segment stands for. */
  function Payload(f: Func, line: seq<byte>): seq<byte>
    requires f.index <= f.End() <= |line|
  {
    line[f.index..f.End()]
  }

  /** How many segments `nextCmd` takes. */
  function Taken(fs: seq<Func>, line: seq<byte>): (n: nat)
    requires fs != []
    ensures 1 <= n <= 2 && n <= |fs|
  {
    if |fs| == 1 then 1
    else if fs[0].kind == Copy && fs[0].End() != |line| then 2
    else if fs[0].kind == Repeat && fs[1].kind == Raw then 2
    else 1
  }

  /** The commands `nextCmd` gives for them. */
  function FirstCmds(fs: seq<Func>, line: seq<byte>): (cs: seq<Cmd>)
    requires fs != [] && InLine(fs, line)
    ensures AllInRange(cs)
  {
    var f := fs[0];
    match f.kind
    case Copy =>
      if f.End() == |line| then [EOL]
      else if |fs| == 1 then CopyCmds(f.count)
      else if fs[1].kind == Repeat then CopyThenRepeatCmds(f.count, fs[1].count, line[fs[1].index])
      else CopyThenRawCmds(f.count, Payload(fs[1], line))
    case Repeat =>
      if |fs| > 1 && fs[1].kind == Raw
      then RepeatThenRawCmds(f.count, line[f.index], Payload(fs[1], line))
      else RepeatCmds(f.count, line[f.index])
    case Raw => RawPieces(0, Payload(f, line))
  }

  function Cmds(fs: seq<Func>, line: seq<byte>): (cs: seq<Cmd>)
    requires InLine(fs, line)
    ensures AllInRange(cs)
  {
    if fs == [] then [] else FirstCmds(fs, line) + Cmds(fs[Taken(fs, line)..], line)
  }

  lemma {:induction false} SegmentsInLine(line: seq<byte>, prev: seq<byte>, i: nat)
    requires LinePair(line, prev) && i <= |line|
    ensures InLine(SegmentsFrom(line, prev, i), line)
    decreases |line| - i
  {
    if i < |line| {
      SegmentsInLine(line, prev, SegmentAt(line, prev, i).End());
    }
  }

  /** The commands of a line from byte `i` on. */
  function CmdsFrom(line: seq<byte>, prev: seq<byte>, i: nat): (cs: seq<Cmd>)
    requires LinePair(line, prev) && i <= |line|
    ensures AllInRange(cs)
  {
    SegmentsInLine(line, prev, i);
    Cmds(SegmentsFrom(line, prev, i), line)
  }

  /** All the commands of one line. */
  function LineCmds(line: seq<byte>, prev: seq<byte>): (cs: seq<Cmd>)
    requires LinePair(line, prev)
    ensures AllInRange(cs)
  {
    CmdsFrom(line, prev, 0)
  }

  /** The tail of a page: the bytes before it and the EOP make an even number. */
  function Finish(videoSize: nat): seq<byte> {
    PrintAll(if (videoSize + 1) % 2 != 0 then [NOP, EOP] else [EOP])
  }

  /** What is left of a page's SCoA stream, with `lines` lines to come from `raster`, after
      the line `prev` (empty at the top of the page) and `videoSize` command bytes. A raster
      that ends early ends the stream, without an EOP. */
  function Encode(raster: seq<byte>, lineSize: nat, lines: nat, prev: seq<byte>, videoSize: nat): seq<byte>
    requires lineSize >= 1 && (prev == [] || |prev| == lineSize)
    decreases lines
  {
    if lines == 0 || |raster| < lineSize then []
    else
      var line := raster[..lineSize];
      var body := PrintAll(LineCmds(line, prev));
      var size := videoSize + |body|;
      body + (if lines == 1 then Finish(size) else []) + Encode(raster[lineSize..], lineSize, lines - 1, line, size)
  }

  /** What the source still has when the encoder is done with a page: the lines are taken, or, where it
      ends early, everything. */
  function SourceLeft(raster: seq<byte>, lineSize: nat, lines: nat): seq<byte>
    decreases lines
  {
    if lines == 0 then raster
    else if |raster| < lineSize then []
    else SourceLeft(raster[lineSize..], lineSize, lines - 1)
  }

  function EncodePage(raster: seq<byte>, lineSize: nat, lines: nat): seq<byte>
    requires lineSize >= 1
  {
    Encode(raster, lineSize, lines, [], 0)
  }
}

module ScoaStreambufs {
  import opened Bytes
  import opened Streams
  import opened ScoaCmd
  import opened ScoaSplit
  import opened Segments
  import opened ScoaStates
  import opened Encoder

  /** What `nextCmd` may assume of the first two segments; its assertions follow. */
  lemma FirstTwo(line: seq<byte>, prev: seq<byte>, i: nat)
    requires LinePair(line, prev) && i < |line|
    ensures var fs := SegmentsFrom(line, prev, i);
            && fs != [] && (|fs| == 1 <==> fs[0].End() == |line|)
            && (fs[0].kind == Repeat ==> fs[0].count >= 2)
            && (|fs| > 1 && fs[0].kind == Copy ==>
                  fs[1].kind == Raw || (fs[1].kind == Repeat && fs[1].count >= 2))
  {
    var fs := SegmentsFrom(line, prev, i);
    SegmentAtIs(line, prev, i);
    Neighbours(line, prev, i);
    assert fs[0] == SegmentAt(line, prev, i) && fs[1..] == SegmentsFrom(line, prev, fs[0].End());
    if fs[0].End() < |line| {
      SegmentAtIs(line, prev, fs[0].End());
      assert fs[1] == SegmentAt(line, prev, fs[0].End());
    }
  }

  /** One command's worth of segments. The source's last return for a Copy, `cmd_Copy`, is
      never reached: a Copy that does not end the line is not the last segment. */
  method NextCmd(buffer: ByteVector, line: seq<byte>, state: ScoaState, ghost i: nat) returns (vsize: nat)
    requires state.Valid() && state.line == line && i < |line|
    requires state.Pending() == SegmentsFrom(line, state.prevLine, i)
    requires InLine(state.Pending(), line)
    modifies buffer, state
    ensures state.Valid() && state.Pending() == old(state.Pending())[Taken(old(state.Pending()), line)..]
    ensures buffer.bytes == old(buffer.bytes) + PrintAll(FirstCmds(old(state.Pending()), line))
    ensures vsize == |buffer.bytes| - |old(buffer.bytes)|
  {
    hide PrintAll, Print, Segment, Body, SegmentsFrom, SegmentAt, InRange, AllInRange;
    hide CopyCmds, CopyThenRepeatCmds, CopyThenRawCmds, RepeatThenRawCmds, RepeatCmds, RawPieces;
    hide CopyThenRepeatAsserts, RepeatThenRawAsserts;
    ghost var prev := state.prevLine;
    FirstTwo(line, prev, i);
    var curr := state.Get();
    if curr.kind == Copy {
      if curr.index + curr.count == |line| {
        vsize := EncodeEOL(buffer);
        MarkerBytes();
        PrintAllOne(EOL);
        return;
      }
      var empty := state.Empty();
      if !empty {
        var next := state.Get();
        if next.kind == Repeat {
          CopyThenRepeatAssertsIff(curr.count, next.count);
          vsize := CmdCopyThenRepeat(buffer, curr.count, next.count, line[next.index]);
        } else {
          assert next.kind == Raw;
          vsize := CmdCopyThenRaw(buffer, curr.count, Payload(next, line));
        }
        return;
      }
      assert false;
    } else if curr.kind == Repeat {
      var empty := state.Empty();
      if !empty {
        var peek := state.Peek();
        if peek.kind == Raw {
          var next := state.Get();
          RepeatThenRawAssertsIff(curr.count, Payload(next, line));
          vsize := CmdRepeatThenRaw(buffer, curr.count, line[curr.index], Payload(next, line));
          return;
        }
      }
      vsize := CmdRepeat(buffer, curr.count, line[curr.index]);
    } else {
      vsize := CmdWriteRaw(buffer, Payload(curr, line));
    }
  }

  /** The loop over a line's segments (libcapt/Compression/ScoaStreambuf.cpp:230-233). */
  method EncodeLine(buffer: ByteVector, line: seq<byte>, prev: seq<byte>, videoSize: nat) returns (size: nat)
    requires LinePair(line, prev) && 1 <= |line|
    modifies buffer
    ensures buffer.bytes == old(buffer.bytes) + PrintAll(LineCmds(line, prev))
    ensures size == videoSize + |PrintAll(LineCmds(line, prev))|
  {
    PrintAllNone();
    CmdsFromEnd(line, prev);
    hide PrintAll, Print, CmdsFrom, SegmentsFrom, Segment, Body;
    size := videoSize;
    var state := new ScoaState(line, prev);
    ghost var i: nat, done: seq<Cmd> := 0, [];
    SegmentsEmpty(line, prev, i);
    var empty := state.Empty();
    while !empty
      invariant i <= |line| && empty == (i == |line|)
      invariant state.Valid() && state.line == line && state.prevLine == prev
      invariant state.Pending() == SegmentsFrom(line, prev, i)
      invariant AllInRange(done) && done + CmdsFrom(line, prev, i) == LineCmds(line, prev)
      invariant buffer.bytes == old(buffer.bytes) + PrintAll(done)
      invariant size == videoSize + |buffer.bytes| - |old(buffer.bytes)|
      decreases |line| - i
    {
      var n;
      n, i, done := EncodeSegments(buffer, line, prev, state, i, done, old(buffer.bytes));
      size := size + n;
      SegmentsEmpty(line, prev, i);
      empty := state.Empty();
    }
    assert done == LineCmds(line, prev);
  }

  /** One call of `nextCmd`, seen from the whole line. */
  method EncodeSegments(buffer: ByteVector, line: seq<byte>, prev: seq<byte>, state: ScoaState,
                        ghost i: nat, ghost done: seq<Cmd>, ghost base: seq<byte>)
    returns (n: nat, ghost j: nat, ghost done': seq<Cmd>)
    requires LinePair(line, prev) && i < |line| && AllInRange(done)
    requires state.Valid() && state.line == line && state.prevLine == prev
    requires state.Pending() == SegmentsFrom(line, prev, i) && buffer.bytes == base + PrintAll(done)
    modifies buffer, state
    ensures state.Valid() && i < j <= |line| && state.Pending() == SegmentsFrom(line, prev, j)
    ensures AllInRange(done') && done' + CmdsFrom(line, prev, j) == done + CmdsFrom(line, prev, i)
    ensures buffer.bytes == base + PrintAll(done')
    ensures n == |buffer.bytes| - |old(buffer.bytes)|
  {
    hide PrintAll, Print, FirstCmds, Segment, Body, SegmentsFrom, CmdsFrom, Taken, InLine;
    ghost var cs;
    j, cs := CmdsFromStep(line, prev, i);
    n := NextCmd(buffer, line, state, i);
    done' := done + cs;
    PrintAllAppend(done, cs);
    hide AllInRange;
    assert done + (cs + CmdsFrom(line, prev, j)) == done' + CmdsFrom(line, prev, j);
    assert base + PrintAll(done) + PrintAll(cs) == base + PrintAll(done');
  }

  /** After whole commands the segmenter is again at the start of a segment. */
  lemma CmdsFromStep(line: seq<byte>, prev: seq<byte>, i: nat) returns (j: nat, cs: seq<Cmd>)
    requires LinePair(line, prev) && i < |line|
    ensures var fs := SegmentsFrom(line, prev, i);
            && i < j <= |line| && fs[Taken(fs, line)..] == SegmentsFrom(line, prev, j)
            && InLine(fs, line) && cs == FirstCmds(fs, line)
    ensures CmdsFrom(line, prev, i) == cs + CmdsFrom(line, prev, j)
  {
    hide FirstCmds;
    SegmentsInLine(line, prev, i);
    var fs := SegmentsFrom(line, prev, i);
    var f := SegmentAt(line, prev, i);
    cs := FirstCmds(fs, line);
    assert fs[1..] == SegmentsFrom(line, prev, f.End());
    if Taken(fs, line) == 1 {
      j := f.End();
    } else {
      var g := SegmentAt(line, prev, f.End());
      assert fs[1..][1..] == SegmentsFrom(line, prev, g.End());
      j := g.End();
    }
  }

  lemma SegmentsEmpty(line: seq<byte>, prev: seq<byte>, i: nat)
    requires LinePair(line, prev) && i <= |line|
    ensures SegmentsFrom(line, prev, i) == [] <==> i == |line|
  {
  }

  lemma CmdsFromEnd(line: seq<byte>, prev: seq<byte>)
    requires LinePair(line, prev)
    ensures CmdsFrom(line, prev, |line|) == []
  {
  }

  class ScoaStreambuf {
    var rasterStream: ByteStream?
    const buffer: ByteVector
    var currLine: seq<byte>
    var prevLine: seq<byte>
    var linesRemain: nat
    var videoSize: nat
    // the get area, inside `buffer`
    var gptr: nat
    var egptr: nat

    ghost predicate Valid()
      reads this, rasterStream, buffer
    {
      && rasterStream != null && rasterStream.Valid()
      && |currLine| >= 1 && (videoSize != 0 ==> |prevLine| == |currLine|)
      && gptr <= egptr && (gptr < egptr ==> egptr <= |buffer.bytes|)
    }

    ghost function Prev(): seq<byte>
      reads this
    {
      if videoSize == 0 then [] else prevLine
    }

    ghost function Area(): seq<byte>
      requires Valid()
      reads this, rasterStream, buffer
    {
      if gptr < egptr then buffer.bytes[gptr..egptr] else []
    }

    /** Everything still to be read from the encoder. */
    ghost function Pending(): seq<byte>
      requires Valid()
      reads this, rasterStream, buffer
    {
      Area() + Encode(rasterStream.Rest(), |currLine|, linesRemain, Prev(), videoSize)
    }

    /** What will be left in the source after this page. */
    ghost function SourceAfter(): seq<byte>
      requires Valid()
      reads this, rasterStream, buffer
    {
      SourceLeft(rasterStream.Rest(), |currLine|, linesRemain)
    }

    constructor ()
      ensures rasterStream == null && gptr == egptr && linesRemain == 0 && videoSize == 0 && fresh(buffer)
    {
      rasterStream := null;
      buffer := new ByteVector();
      currLine, prevLine := [], [];
      linesRemain, videoSize, gptr, egptr := 0, 0, 0, 0;
    }

    constructor FromRaster(rasterStream: ByteStream, lineSize: nat, lines: nat)
      requires rasterStream.Valid() && lineSize >= 1
      ensures Valid() && this.rasterStream == rasterStream && fresh(buffer)
      ensures Pending() == EncodePage(rasterStream.Rest(), lineSize, lines)
      ensures SourceAfter() == SourceLeft(rasterStream.Rest(), lineSize, lines)
    {
      this.rasterStream := rasterStream;
      buffer := new ByteVector();
      currLine, prevLine := Fill(lineSize, 0), [];
      linesRemain, videoSize, gptr, egptr := lines, 0, 0, 0;
    }

    /** Starts another page; the page before must have been read to its end. */
    method Reset(rasterStream: ByteStream, lineSize: nat, lines: nat)
      requires gptr == egptr
      requires rasterStream.Valid() && lineSize >= 1
      modifies this, buffer
      ensures Valid() && this.rasterStream == rasterStream
      ensures Pending() == EncodePage(rasterStream.Rest(), lineSize, lines)
      ensures SourceAfter() == SourceLeft(rasterStream.Rest(), lineSize, lines)
    {
      this.rasterStream := rasterStream;
      buffer.Clear();
      linesRemain := lines;
      currLine := Resize(currLine, lineSize);
      prevLine := Resize(prevLine, lineSize);
      videoSize := 0;
    }

    /** Makes the next byte available: the encoder computes, line by line and with reused
        buffers, the stream `Encode` describes. */
    method Underflow() returns (c: Option<byte>)
      requires Valid()
      modifies this, rasterStream, buffer
      ensures Valid() && rasterStream == old(rasterStream) && |currLine| == old(|currLine|)
      ensures Pending() == old(Pending()) && SourceAfter() == old(SourceAfter())
      ensures c == if Pending() == [] then None else Some(Pending()[0])
      ensures c.Some? ==> gptr < egptr
      ensures var take := if old(gptr < egptr) || old(linesRemain) == 0 then 0
                          else Min(old(|currLine|), |old(rasterStream.Rest())|);
              rasterStream.Rest() == old(rasterStream.Rest())[take..]
      ensures c == None ==> rasterStream.Rest() == SourceAfter()
      ensures old(gptr < egptr) ==> Area() == old(Area())
    {
      hide Encode;
      if gptr < egptr {
        return Some(buffer.bytes[gptr]);
      }
      if linesRemain == 0 {
        EncodeStep(rasterStream.Rest(), |currLine|, linesRemain, Prev(), videoSize);
        return None;
      }
      ghost var raster, prev, size0 := rasterStream.Rest(), Prev(), videoSize;
      var read := rasterStream.Sgetn(|currLine|);
      if |read| < |currLine| {
        EncodeStep(raster, |currLine|, linesRemain, prev, size0);
        EncodeStep(rasterStream.Rest(), |currLine|, linesRemain, prev, size0);
        currLine := read + currLine[|read|..];
        return None;
      }
      currLine := read;
      EncodeCurrLine();
      assert read + raster[|read|..] == raster;
      return Some(buffer.bytes[gptr]);
    }

    /** The part of `underflow` after a whole line was read. */
    method EncodeCurrLine()
      requires Valid() && linesRemain > 0 && gptr == egptr
      modifies this, buffer
      ensures Valid() && rasterStream == old(rasterStream) && |currLine| == old(|currLine|) && gptr < egptr
      ensures Pending() ==
              Encode(old(currLine + rasterStream.Rest()), |currLine|, old(linesRemain), old(Prev()), old(videoSize))
      ensures rasterStream.Rest() == old(rasterStream.Rest()) && linesRemain == old(linesRemain) - 1
    {
      hide Encode, LineCmds, PrintAll, Print, Finish;
      ghost var line, rest := currLine, rasterStream.Rest();
      assert (line + rest)[..|line|] == line && (line + rest)[|line|..] == rest;
      EncodeStep(line + rest, |line|, linesRemain, Prev(), videoSize);
      EmitCurrLine(Prev());
      gptr, egptr := 0, |buffer.bytes|;
      assert Area() == buffer.bytes;
      assert Pending() == buffer.bytes + Encode(rest, |line|, linesRemain, line, videoSize);
    }

    /** Appends the line's commands, and the end of the page after the last line. */
    method EmitCurrLine(ghost prev: seq<byte>)
      requires Valid() && linesRemain > 0 && gptr == egptr && prev == Prev()
      modifies this, buffer
      ensures Valid() && rasterStream == old(rasterStream) && rasterStream.Rest() == old(rasterStream.Rest())
      ensures |currLine| == old(|currLine|) && linesRemain == old(linesRemain) - 1 && gptr == egptr
      ensures buffer.bytes != [] && videoSize > 0 && prevLine == old(currLine)
      ensures var body := PrintAll(LineCmds(old(currLine), prev));
              && videoSize == old(videoSize) + |body|
              && buffer.bytes == body + if linesRemain == 0 then Finish(videoSize) else []
    {
      hide LineCmds, PrintAll, Print, Finish, Resize;
      LineCmdsNonEmpty(currLine, prev);
      buffer.Clear();
      var size := EncodeLine(buffer, currLine, if videoSize == 0 then [] else prevLine, videoSize);
      videoSize := size;
      prevLine := Resize(prevLine, |currLine|);
      prevLine, currLine := currLine, prevLine;
      linesRemain := linesRemain - 1;
      if linesRemain == 0 {
        EmitFinish();
      }
    }

    /** The padding, if the size wants it, and the EOP. */
    method EmitFinish()
      modifies buffer
      ensures buffer.bytes == old(buffer.bytes) + Finish(videoSize)
    {
      hide PrintAll, Print, Finish;
      FinishBytes(videoSize);
      MarkerBytes();
      if (videoSize + 1) % 2 != 0 {
        var n := EncodeNOP(buffer);
      }
      var n := EncodeEOP(buffer);
    }

    /** Takes `k` bytes out of the get area. */
    method Take(k: nat) returns (chunk: seq<byte>)
      requires Valid() && gptr < egptr && 1 <= k <= egptr - gptr
      modifies this`gptr
      ensures Valid() && |chunk| == k && chunk + Pending() == old(Pending()) && chunk + Area() == old(Area())
    {
      hide Encode;
      chunk := buffer.bytes[gptr..gptr + k];
      gptr := gptr + k;
      assert old(Area()) == chunk + Area();
    }

    /** The next bytes, up to `k` of them, out of the get area or out of a new line. */
    method TakeSome(k: nat) returns (chunk: seq<byte>)
      requires Valid() && k >= 1
      modifies this, rasterStream, buffer
      ensures Valid() && rasterStream == old(rasterStream) && |chunk| <= k
      ensures old(Pending()) == chunk + Pending() && SourceAfter() == old(SourceAfter())
      ensures chunk == [] ==> Pending() == [] && rasterStream.Rest() == SourceAfter()
      ensures k <= |old(Area())| ==> |chunk| == k && rasterStream.Rest() == old(rasterStream.Rest())
    {
      hide Encode, SourceLeft;
      var c := Underflow();
      if c == None {
        return [];
      }
      chunk := Take(Min(k, egptr - gptr));
    }

    /** `std::streambuf::sgetn`. Over any sequence of reads the encoder is a plain stream of the bytes
        `Pending` begins with. What is at hand is given without the source; a read that comes up short
        leaves the source where the page ends. */
    method Sgetn(n: nat) returns (s: seq<byte>)
      requires Valid()
      modifies this, rasterStream, buffer
      ensures Valid() && rasterStream == old(rasterStream)
      ensures s == old(Pending())[..Min(n, |old(Pending())|)]
      ensures Pending() == old(Pending())[Min(n, |old(Pending())|)..]
      ensures SourceAfter() == old(SourceAfter()) && (|s| < n ==> rasterStream.Rest() == SourceAfter())
      ensures n <= |old(Area())| ==> rasterStream.Rest() == old(rasterStream.Rest())
    {
      hide Encode, SourceLeft, Pending, SourceAfter, Area;
      ghost var all := Pending();
      s := [];
      assert all == [] + all;
      while |s| < n
        invariant Valid() && rasterStream == old(rasterStream) && |s| <= n
        invariant all == s + Pending() && SourceAfter() == old(SourceAfter())
        invariant n <= |old(Area())| ==>
                    rasterStream.Rest() == old(rasterStream.Rest()) && (|s| == n || Area() == old(Area()))
        decreases n - |s|
      {
        var chunk := TakeSome(n - |s|);
        if chunk == [] {
          break;
        }
        Assoc(s, chunk, Pending());
        s := s + chunk;
      }
      assert |s| == n || Pending() == [];
      assert s == all[..|s|] && Pending() == all[|s|..];
    }
  }

  /** `std::vector::resize`. */
  function Resize(s: seq<byte>, n: nat): (r: seq<byte>)
    ensures |r| == n
  {
    if |s| >= n then s[..n] else s + Fill(n - |s|, 0)
  }

  lemma EncodeStep(raster: seq<byte>, lineSize: nat, lines: nat, prev: seq<byte>, videoSize: nat)
    requires lineSize >= 1 && (prev == [] || |prev| == lineSize)
    ensures lines == 0 || |raster| < lineSize ==> Encode(raster, lineSize, lines, prev, videoSize) == []
    ensures lines > 0 && |raster| >= lineSize ==>
              var body := PrintAll(LineCmds(raster[..lineSize], prev));
              var size := videoSize + |body|;
              Encode(raster, lineSize, lines, prev, videoSize) ==
              body + (if lines == 1 then Finish(size) else [])
                   + Encode(raster[lineSize..], lineSize, lines - 1, raster[..lineSize], size)
  {
    hide LineCmds, PrintAll, Finish;
  }

  lemma MarkerBytes()
    ensures Print(NOP) == [0x40] && Print(EOL) == [0x41] && Print(EOP) == [0x42]
  {
  }

  lemma FinishBytes(videoSize: nat)
    ensures Finish(videoSize) == if (videoSize + 1) % 2 != 0 then [0x40, 0x42] else [0x42]
  {
    PrintAllOne(EOP);
    assert PrintAll([NOP, EOP]) == Print(NOP) + PrintAll([NOP, EOP][1..]);
    assert [NOP, EOP][1..] == [EOP];
  }

  lemma LineCmdsNonEmpty(line: seq<byte>, prev: seq<byte>)
    requires LinePair(line, prev) && 1 <= |line|
    ensures |LineCmds(line, prev)| >= 1
  {
    var j, cs := CmdsFromStep(line, prev, 0);
    var fs := SegmentsFrom(line, prev, 0);
    FirstCmdsNonEmpty(fs, line);
  }

  lemma FirstCmdsNonEmpty(fs: seq<Func>, line: seq<byte>)
    requires fs != [] && InLine(fs, line)
    ensures |FirstCmds(fs, line)| >= 1
  {
    assert fs[0].count >= 1 && (|fs| > 1 ==> fs[1].count >= 1);
    hide Print, PrintAll, CopyPiece, InRange;
  }
}
