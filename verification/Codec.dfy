/** The encoder and the decoder together: compressing and decompressing gives the raster back. */
module Codec {
  import opened Bytes
  import opened ScoaCmd
  import opened Decoder
  import opened ScoaSplit
  import opened Segments
  import opened Encoder
  import opened ScoaStreambufs

  // ----- arithmetic of whole lines

  lemma DivisionUnique(n: int, d: int, q: int, r: int)
    requires d > 0 && n == d * q + r && 0 <= r < d
    ensures n / d == q && n % d == r
  {
    var e := n / d - q;
    assert n == d * (n / d) + n % d;
    assert d * e == r - n % d;
    MultipleOutside(d, e);
  }

  lemma MultipleOutside(d: int, e: int)
    requires d > 0
    ensures e >= 1 ==> d * e >= d
    ensures e <= -1 ==> d * e <= -d
  {
    if e >= 1 {
      assert d * e == d + d * (e - 1);
    } else if e <= -1 {
      assert d * e == -d + d * (e + 1);
    }
  }

  lemma LineOffset(n: nat, lineSize: nat, i: nat)
    requires lineSize >= 1 && n % lineSize == 0 && i < lineSize
    ensures (n + i) % lineSize == i
    ensures (n + lineSize) % lineSize == 0
    ensures (n + lineSize) / lineSize == n / lineSize + 1
  {
    var q := n / lineSize;
    assert n == lineSize * q;
    DivisionUnique(n + i, lineSize, q, i);
    assert n + lineSize == lineSize * (q + 1);
    DivisionUnique(n + lineSize, lineSize, q + 1, 0);
  }

  // ----- what the commands of a line do

  /** The raster decoded so far ends with the encoder's previous line. */
  predicate InStep(base: seq<byte>, prev: seq<byte>, lineSize: nat) {
    && lineSize >= 1 && |base| % lineSize == 0
    && (prev != [] ==> |base| >= lineSize && base[|base| - lineSize..] == prev)
  }

  /** Inside a line, the copy window shows the previous line at the same place. */
  lemma Window(base: seq<byte>, line: seq<byte>, prev: seq<byte>, i: nat, count: nat)
    requires InStep(base, prev, |line|) && |prev| == |line| && i + count <= |line|
    ensures CopyWindow(base + line[..i], count, |line|) == Ok(base + line[..i] + prev[i..i + count])
  {
    var out := base + line[..i];
    var start := |out| - |line|;
    assert start == |base| - |line| + i;
    assert out[start..][..count] == prev[i..i + count];
    if count == 0 {
      assert out + prev[i..i] == out;
    }
  }

  lemma FillIs(line: seq<byte>, f: Func, prev: seq<byte>)
    requires LinePair(line, prev) && Segment(f, line, prev) && f.kind == Repeat
    ensures Fill(f.count, line[f.index]) == line[f.index..f.End()]
  {
  }

  lemma CopyIs(line: seq<byte>, f: Func, prev: seq<byte>, base: seq<byte>)
    requires InStep(base, prev, |line|) && LinePair(line, prev) && Segment(f, line, prev) && f.kind == Copy
    ensures CopyWindow(base + line[..f.index], f.count, |line|) == Ok(base + line[..f.End()])
  {
    assert Same(line, prev, f.index);
    forall k | 0 <= k < f.count ensures prev[f.index..f.End()][k] == line[f.index..f.End()][k] {
      assert Same(line, prev, f.index + k);
    }
    assert prev[f.index..f.End()] == line[f.index..f.End()];
    hide CopyWindow, Segment, InStep;
    Window(base, line, prev, f.index, f.count);
    Extend(base, line, f.index, f.End());
  }

  lemma Extend(base: seq<byte>, line: seq<byte>, i: nat, j: nat)
    requires i <= j <= |line|
    ensures base + line[..i] + line[i..j] == base + line[..j]
  {
    assert line[..j] == line[..i] + line[i..j];
  }

  /** Two segments made into one command: a Copy with what follows it, or a Repeat with the
      Raw segment after it. */
  lemma PairMeaning(line: seq<byte>, prev: seq<byte>, base: seq<byte>, f: Func, g: Func)
    requires LinePair(line, prev) && InStep(base, prev, |line|)
    requires Segment(f, line, prev) && Segment(g, line, prev) && g.index == f.End()
    requires if f.kind == Copy then g.kind != Copy else f.kind == Repeat && g.kind == Raw
    ensures var cs := if f.kind == Repeat then RepeatThenRawCmds(f.count, line[f.index], Payload(g, line))
                      else if g.kind == Repeat then CopyThenRepeatCmds(f.count, g.count, line[g.index])
                      else CopyThenRawCmds(f.count, Payload(g, line));
            Run(cs, base + line[..f.index], |line|) == Ok(base + line[..g.End()])
  {
    var out := base + line[..f.index];
    Extend(base, line, f.index, f.End());
    Extend(base, line, g.index, g.End());
    hide Run, RepeatThenRawCmds, CopyThenRepeatCmds, CopyThenRawCmds, CopyWindow, InStep;
    if f.kind == Repeat {
      FillIs(line, f, prev);
      RepeatThenRawMeaning(f.count, line[f.index], Payload(g, line), out, |line|);
    } else {
      CopyIs(line, f, prev, base);
      if g.kind == Repeat {
        FillIs(line, g, prev);
        CopyThenRepeatMeaning(f.count, g.count, line[g.index], out, |line|);
      } else {
        CopyThenRawMeaning(f.count, Payload(g, line), out, |line|);
      }
    }
  }

  /** A segment by itself; a Copy is by itself only at the end of the line. */
  lemma SingleMeaning(line: seq<byte>, prev: seq<byte>, base: seq<byte>, f: Func)
    requires LinePair(line, prev) && InStep(base, prev, |line|)
    requires Segment(f, line, prev) && (f.kind == Copy ==> f.End() == |line|)
    ensures var cs := if f.kind == Copy then [EOL]
                      else if f.kind == Repeat then RepeatCmds(f.count, line[f.index])
                      else RawPieces(0, Payload(f, line));
            Run(cs, base + line[..f.index], |line|) == Ok(base + line[..f.End()])
  {
    var out := base + line[..f.index];
    Extend(base, line, f.index, f.End());
    hide RepeatCmds, RawPieces, CopyWindow;
    match f.kind
    case Copy =>
      CopyIs(line, f, prev, base);
      LineOffset(|base|, |line|, f.index);
      RunOne(EOL, [], out, |line|);
    case Repeat =>
      FillIs(line, f, prev);
      RepeatMeaning(f.count, line[f.index], out, |line|);
    case Raw =>
      RunRawPieces(0, Payload(f, line), out, |line|);
      CopyNothing(out, |line|);
  }

  lemma CopyNothing(out: seq<byte>, lineSize: nat)
    ensures CopyWindow(out, 0, lineSize) == Ok(out)
  {
  }

  /** The commands for the segments at `i` extend the raster exactly to where the next ones begin. */
  lemma FirstCmdsMeaning(line: seq<byte>, prev: seq<byte>, base: seq<byte>, i: nat, j: nat)
    requires LinePair(line, prev) && InStep(base, prev, |line|) && i < j <= |line|
    requires var fs := SegmentsFrom(line, prev, i);
             InLine(fs, line) && fs[Taken(fs, line)..] == SegmentsFrom(line, prev, j)
    ensures Run(FirstCmds(SegmentsFrom(line, prev, i), line), base + line[..i], |line|) == Ok(base + line[..j])
  {
    var fs := SegmentsFrom(line, prev, i);
    var f := SegmentAt(line, prev, i);
    FirstTwo(line, prev, i);
    SegmentAtIs(line, prev, i);
    SegmentsStart(line, prev, j);
    SegmentsStart(line, prev, f.End());
    assert fs[0] == f && fs[1..] == SegmentsFrom(line, prev, f.End());
    if Taken(fs, line) == 2 {
      var g := SegmentAt(line, prev, f.End());
      SegmentAtIs(line, prev, f.End());
      assert fs[1] == g && fs[1..][1..] == SegmentsFrom(line, prev, g.End());
      SegmentsStart(line, prev, g.End());
      hide Run, RepeatThenRawCmds, CopyThenRepeatCmds, CopyThenRawCmds, SegmentAt, Segment, InStep;
      PairMeaning(line, prev, base, f, g);
    } else {
      hide Run, RepeatCmds, RawPieces, SegmentAt, Segment, InStep;
      SingleMeaning(line, prev, base, f);
    }
  }

  lemma {:induction false} CmdsMeaning(line: seq<byte>, prev: seq<byte>, base: seq<byte>, i: nat)
    requires LinePair(line, prev) && InStep(base, prev, |line|) && i <= |line|
    ensures Run(CmdsFrom(line, prev, i), base + line[..i], |line|) == Ok(base + line)
    decreases |line| - i
  {
    if i == |line| {
      CmdsFromEnd(line, prev);
      assert line[..i] == line;
    } else {
      var j, cs := CmdsFromStep(line, prev, i);
      FirstCmdsMeaning(line, prev, base, i, j);
      RunAppend(cs, CmdsFrom(line, prev, j), base + line[..i], |line|);
      CmdsMeaning(line, prev, base, j);
    }
  }

  /** The commands of a line, run after a raster that ends with the previous line, append the
      line: compression loses nothing. */
  lemma LineMeaning(line: seq<byte>, prev: seq<byte>, base: seq<byte>)
    requires LinePair(line, prev) && InStep(base, prev, |line|)
    ensures Run(LineCmds(line, prev), base, |line|) == Ok(base + line)
  {
    CmdsMeaning(line, prev, base, 0);
    assert base + line[..0] == base;
  }

  // ----- every command of a line makes progress

  predicate Productive(cs: seq<Cmd>) {
    forall c | c in cs :: InRange(c) && c != NOP && c != EOP
  }

  lemma FirstCmdsProductive(fs: seq<Func>, line: seq<byte>)
    requires fs != [] && InLine(fs, line)
    ensures Productive(FirstCmds(fs, line))
  {
    hide CopyCmds, CopyThenRepeatCmds, CopyThenRawCmds, RepeatThenRawCmds, RepeatCmds, RawPieces;
  }

  lemma {:induction false} CmdsProductive(line: seq<byte>, prev: seq<byte>, i: nat)
    requires LinePair(line, prev) && i <= |line|
    ensures Productive(CmdsFrom(line, prev, i))
    decreases |line| - i
  {
    if i == |line| {
      CmdsFromEnd(line, prev);
    } else {
      var j, cs := CmdsFromStep(line, prev, i);
      FirstCmdsProductive(SegmentsFrom(line, prev, i), line);
      CmdsProductive(line, prev, j);
    }
  }

  lemma LineProductive(line: seq<byte>, prev: seq<byte>)
    requires LinePair(line, prev)
    ensures Productive(LineCmds(line, prev))
  {
    CmdsProductive(line, prev, 0);
  }

  /** Productive commands add at least a byte each. */
  lemma {:induction false} RunGrows(cs: seq<Cmd>, out: seq<byte>, lineSize: nat)
    requires lineSize >= 1 && Productive(cs) && Run(cs, out, lineSize).Ok?
    ensures |Run(cs, out, lineSize).value| >= |out| + |cs|
  {
    if cs != [] {
      ExecGrows(cs[0], out, lineSize);
      RunGrows(cs[1..], Exec(cs[0], out, lineSize).value, lineSize);
    }
  }

  // ----- decoding the bytes of a list of commands

  lemma DecodeStep(s: seq<byte>, c: Cmd, size: nat, out: seq<byte>, lineSize: nat, target: nat, videoSize: nat)
    requires lineSize >= 1 && |out| < target && c != EOP
    requires Parse(s) == Ok(Parsed(c, size)) && Exec(c, out, lineSize).Ok?
    ensures DecodeLine(s, out, lineSize, target, videoSize) ==
            DecodeLine(s[size..], Exec(c, out, lineSize).value, lineSize, target, videoSize + size)
  {
    hide Parse, Exec;
  }

  /** `DecodeLine` carries out exactly the commands printed before `rest`, when together they
      fill the line: it can neither stop early nor go on into `rest`. */
  lemma {:induction false} DecodePrinted(
    cs: seq<Cmd>, rest: seq<byte>, out: seq<byte>, lineSize: nat, target: nat, videoSize: nat)
    requires lineSize >= 1 && Productive(cs)
    requires Run(cs, out, lineSize).Ok? && |Run(cs, out, lineSize).value| == target
    ensures DecodeLine(PrintAll(cs) + rest, out, lineSize, target, videoSize) ==
            LineDone(rest, Run(cs, out, lineSize).value, videoSize + |PrintAll(cs)|)
  {
    hide Parse, Print, Exec, InRange;
    RunGrows(cs, out, lineSize);
    if cs == [] {
      assert PrintAll(cs) + rest == rest;
    } else {
      hide DecodeLine;
      var c, tail := cs[0], PrintAll(cs[1..]) + rest;
      var s := PrintAll(cs) + rest;
      assert s == Print(c) + tail;
      ParsePrint(c, tail);
      var next := Exec(c, out, lineSize).value;
      assert s[|Print(c)|..] == tail;
      DecodeStep(s, c, |Print(c)|, out, lineSize, target, videoSize);
      DecodePrinted(cs[1..], rest, next, lineSize, target, videoSize + |Print(c)|);
    }
  }

  lemma NextInStep(line: seq<byte>, prev: seq<byte>, base: seq<byte>)
    requires InStep(base, prev, |line|)
    ensures InStep(base + line, line, |line|)
  {
    LineOffset(|base|, |line|, 0);
  }

  /** The lockstep of encoder and decoder over one line: the line comes out, the decoder stops
      just after its last command, the two tallies of command bytes agree, and the raster ends
      with what will be the encoder's previous line. */
  lemma Lockstep(line: seq<byte>, prev: seq<byte>, base: seq<byte>, rest: seq<byte>, videoSize: nat)
    requires LinePair(line, prev) && InStep(base, prev, |line|)
    ensures var body := PrintAll(LineCmds(line, prev));
            DecodeLine(body + rest, base, |line|, |base| + |line|, videoSize) ==
            LineDone(rest, base + line, videoSize + |body|)
    ensures InStep(base + line, line, |line|)
  {
    hide Run, LineCmds, DecodeLine, PrintAll, InStep;
    NextInStep(line, prev, base);
    LineMeaning(line, prev, base);
    LineProductive(line, prev);
    DecodePrinted(LineCmds(line, prev), rest, base, |line|, |base| + |line|, videoSize);
  }

  /** The end of a page decodes to a clean end-of-file whatever the tally's parity. */
  lemma FinishDecodes(videoSize: nat, rest: seq<byte>, out: seq<byte>, lineSize: nat)
    requires lineSize >= 1
    ensures DecodeLine(Finish(videoSize) + rest, out, lineSize, |out| + lineSize, videoSize) == PageEnd(rest, out)
    ensures (videoSize + |Finish(videoSize)|) % 2 == 0
  {
    FinishBytes(videoSize);
    MarkerBytes();
    var s := Finish(videoSize) + rest;
    if (videoSize + 1) % 2 != 0 {
      assert s == Print(NOP) + (Print(EOP) + rest);
      ParsePrint(NOP, Print(EOP) + rest);
      assert s[1..] == Print(EOP) + rest;
      FinishEop(videoSize + 1, rest, out, lineSize);
    } else {
      assert s == Print(EOP) + rest;
      FinishEop(videoSize, rest, out, lineSize);
    }
  }

  lemma FinishEop(videoSize: nat, rest: seq<byte>, out: seq<byte>, lineSize: nat)
    requires lineSize >= 1 && (videoSize + 1) % 2 == 0
    ensures DecodeLine(Print(EOP) + rest, out, lineSize, |out| + lineSize, videoSize) == PageEnd(rest, out)
  {
    MarkerBytes();
    ParsePrint(EOP, rest);
    assert (Print(EOP) + rest)[1..] == rest;
  }

  // ----- pages

  /** The whole lines a raster has, up to `lines` of them. */
  function TakeLines(raster: seq<byte>, lineSize: nat, lines: nat): seq<byte>
    requires lineSize >= 1
    decreases lines
  {
    if lines == 0 || |raster| < lineSize then []
    else raster[..lineSize] + TakeLines(raster[lineSize..], lineSize, lines - 1)
  }

  /** The bytes of a raster. */
  function RasterSize(lines: nat, lineSize: nat): nat {
    lines * lineSize
  }

  lemma OneLineLess(lineSize: nat, lines: nat)
    ensures RasterSize(0, lineSize) == 0
    ensures lines >= 1 ==> RasterSize(lines, lineSize) == RasterSize(lines - 1, lineSize) + lineSize
  {
    assert lines >= 1 ==> lines * lineSize == (lines - 1) * lineSize + lineSize;
  }

  lemma {:induction false} TakeLinesIs(raster: seq<byte>, lineSize: nat, lines: nat)
    requires lineSize >= 1
    ensures TakeLines(raster, lineSize, lines) <= raster
    ensures RasterSize(lines, lineSize) <= |raster| ==>
              |TakeLines(raster, lineSize, lines)| == RasterSize(lines, lineSize)
    ensures RasterSize(lines, lineSize) > |raster| ==>
              |TakeLines(raster, lineSize, lines)| == |raster| - |raster| % lineSize
    decreases lines
  {
    hide RasterSize;
    OneLineLess(lineSize, lines);
    if lines != 0 {
      if |raster| >= lineSize {
        var rest := raster[lineSize..];
        TakeLinesIs(rest, lineSize, lines - 1);
        ModLess(|raster|, lineSize);
        assert raster == raster[..lineSize] + rest;
      } else {
        DivisionUnique(|raster|, lineSize, 0, |raster|);
      }
    }
  }

  /** The bytes a page takes of a source. */
  function PageRaster(src: seq<byte>, lineSize: nat, lines: nat): seq<byte> {
    src[..Min(RasterSize(lines, lineSize), |src|)]
  }

  /** After a page the source stands exactly behind its raster; a source with less than that is used up. */
  lemma {:induction false} SourceLeftIs(src: seq<byte>, lineSize: nat, lines: nat)
    requires lineSize >= 1
    ensures SourceLeft(src, lineSize, lines) ==
            if RasterSize(lines, lineSize) <= |src| then src[RasterSize(lines, lineSize)..] else []
    ensures RasterSize(lines, lineSize) <= |src| ==>
              PageRaster(src, lineSize, lines) + SourceLeft(src, lineSize, lines) == src
    decreases lines
  {
    hide RasterSize;
    OneLineLess(lineSize, lines);
    if lines != 0 && |src| >= lineSize {
      var rest := src[lineSize..];
      SourceLeftIs(rest, lineSize, lines - 1);
      if RasterSize(lines, lineSize) <= |src| {
        assert rest[RasterSize(lines - 1, lineSize)..] == src[RasterSize(lines, lineSize)..];
      }
    }
  }

  /** What follows a page's raster in the source has no part in its stream. */
  lemma {:induction false} EncodePrefix(src: seq<byte>, lineSize: nat, lines: nat, prev: seq<byte>, videoSize: nat)
    requires lineSize >= 1 && (prev == [] || |prev| == lineSize)
    ensures Encode(src, lineSize, lines, prev, videoSize) ==
            Encode(PageRaster(src, lineSize, lines), lineSize, lines, prev, videoSize)
    decreases lines
  {
    hide RasterSize, Encode, LineCmds, PrintAll, Finish;
    OneLineLess(lineSize, lines);
    OneLineLess(lineSize, 0);
    var raster := PageRaster(src, lineSize, lines);
    EncodeStep(src, lineSize, lines, prev, videoSize);
    EncodeStep(raster, lineSize, lines, prev, videoSize);
    if lines != 0 && |src| >= lineSize {
      var line, rest := src[..lineSize], src[lineSize..];
      assert raster[..lineSize] == line;
      assert raster[lineSize..] == PageRaster(rest, lineSize, lines - 1);
      EncodePrefix(rest, lineSize, lines - 1, line, videoSize + |PrintAll(LineCmds(line, prev))|);
    }
  }

  lemma ModLess(n: nat, d: nat)
    requires 1 <= d <= n
    ensures (n - d) % d == n % d
  {
    assert n - d == d * (n / d - 1) + n % d;
    DivisionUnique(n - d, d, n / d - 1, n % d);
  }

  lemma DecodePageLine(
    s: seq<byte>, out: seq<byte>, lineSize: nat, videoSize: nat, line: seq<byte>, rest: seq<byte>, size: nat)
    requires |line| == lineSize >= 1
    requires DecodeLine(s, out, lineSize, |out| + lineSize, videoSize) == LineDone(rest, out + line, size)
    ensures var more := DecodePage(rest, out + line, lineSize, size);
            DecodePage(s, out, lineSize, videoSize) == PageOutcome(line + more.raster, more.ending, more.rest)
  {
    hide DecodeLine;
    assert (out + line)[|out + line| - lineSize..] == line;
  }

  lemma DecodePageEnd(videoSize: nat, tail: seq<byte>, out: seq<byte>, lineSize: nat)
    requires lineSize >= 1
    ensures DecodePage(Finish(videoSize) + tail, out, lineSize, videoSize) == PageOutcome([], CleanEof, tail)
  {
    hide DecodeLine, Finish;
    FinishDecodes(videoSize, tail, out, lineSize);
  }

  /** From any point between two lines on: what the encoder has still to send decodes to the
      lines it has still to read. The page ends cleanly, with exactly its own bytes used, when
      the raster has all its lines; otherwise decoding stops for want of input. */
  lemma {:induction false} PageDecodes(
    raster: seq<byte>, lineSize: nat, lines: nat, prev: seq<byte>, out: seq<byte>, videoSize: nat, tail: seq<byte>)
    requires InStep(out, prev, lineSize) && (prev == [] || |prev| == lineSize)
    requires lines >= 1 && (RasterSize(lines, lineSize) > |raster| ==> tail == [])
    ensures DecodePage(Encode(raster, lineSize, lines, prev, videoSize) + tail, out, lineSize, videoSize) ==
            PageOutcome(TakeLines(raster, lineSize, lines),
                        if RasterSize(lines, lineSize) <= |raster| then CleanEof else Thrown(UnexpectedEof),
                        tail)
    decreases lines
  {
    hide InStep, LineCmds, PrintAll, Finish, DecodeLine, DecodePage, Encode, RasterSize;
    InStepSize(out, prev, lineSize);
    OneLineLess(lineSize, lines);
    EncodeStep(raster, lineSize, lines, prev, videoSize);
    var s := Encode(raster, lineSize, lines, prev, videoSize) + tail;
    if |raster| < lineSize {
      assert s == [];
      NoInput(out, lineSize, videoSize);
    } else {
      var line, left := raster[..lineSize], raster[lineSize..];
      var body := PrintAll(LineCmds(line, prev));
      var size := videoSize + |body|;
      var more := (if lines == 1 then Finish(size) else []) + Encode(left, lineSize, lines - 1, line, size) + tail;
      assert s == body + more;
      Lockstep(line, prev, out, more, videoSize);
      DecodePageLine(s, out, lineSize, videoSize, line, more, size);
      if lines == 1 {
        EncodeStep(left, lineSize, 0, line, size);
        assert more == Finish(size) + tail;
        OneLineLess(lineSize, 0);
        DecodePageEnd(size, tail, out + line, lineSize);
        assert TakeLines(left, lineSize, 0) == [];
      } else {
        assert more == Encode(left, lineSize, lines - 1, line, size) + tail;
        PageDecodes(left, lineSize, lines - 1, line, out + line, size, tail);
      }
    }
  }

  lemma InStepSize(base: seq<byte>, prev: seq<byte>, lineSize: nat)
    requires InStep(base, prev, lineSize)
    ensures lineSize >= 1
  {
  }

  lemma NoInput(out: seq<byte>, lineSize: nat, videoSize: nat)
    requires lineSize >= 1
    ensures DecodePage([], out, lineSize, videoSize) == PageOutcome([], Thrown(UnexpectedEof), [])
  {
    hide Exec;
  }

  /** The law the compression is for: every raster, of any line size and any number of lines
      from one up, comes back from its SCoA stream, followed by a clean end-of-file, and not a
      byte of what follows the stream is touched. */
  lemma CodecRoundTrip(raster: seq<byte>, lineSize: nat, lines: nat, tail: seq<byte>)
    requires lineSize >= 1 && lines >= 1 && |raster| == RasterSize(lines, lineSize)
    ensures DecodePage(EncodePage(raster, lineSize, lines) + tail, [], lineSize, 0) ==
            PageOutcome(raster, CleanEof, tail)
  {
    EmptyInStep(lineSize);
    hide InStep, Encode, DecodePage, TakeLines, RasterSize;
    PageDecodes(raster, lineSize, lines, [], [], 0, tail);
    TakeLinesIs(raster, lineSize, lines);
  }

  lemma EmptyInStep(lineSize: nat)
    requires lineSize >= 1
    ensures InStep([], [], lineSize)
  {
  }

  /** For a source of any length: the whole lines it has come back, and the end is clean exactly
      when there is at least one line to send and the source has them all. */
  lemma AnySource(raster: seq<byte>, lineSize: nat, lines: nat)
    requires lineSize >= 1
    ensures var page := DecodePage(EncodePage(raster, lineSize, lines), [], lineSize, 0);
            && page.raster == TakeLines(raster, lineSize, lines)
            && page.ending == (if lines >= 1 && RasterSize(lines, lineSize) <= |raster|
                               then CleanEof else Thrown(UnexpectedEof))
            && page.rest == []
  {
    hide InStep, LineCmds, DecodePage, RasterSize;
    var s := EncodePage(raster, lineSize, lines);
    assert s + [] == s;
    if lines == 0 {
      NoInput([], lineSize, 0);
    } else {
      EmptyInStep(lineSize);
      PageDecodes(raster, lineSize, lines, [], [], 0, []);
    }
  }

  /** A complete page's stream has an even number of bytes, the padding and the EOP included. */
  lemma {:induction false} EvenSize(raster: seq<byte>, lineSize: nat, lines: nat, prev: seq<byte>, videoSize: nat)
    requires lineSize >= 1 && lines >= 1 && RasterSize(lines, lineSize) <= |raster|
    requires prev == [] || |prev| == lineSize
    ensures (videoSize + |Encode(raster, lineSize, lines, prev, videoSize)|) % 2 == 0
    decreases lines
  {
    hide LineCmds, PrintAll, Finish, Encode, RasterSize;
    OneLineLess(lineSize, lines);
    EncodeStep(raster, lineSize, lines, prev, videoSize);
    var line, left := raster[..lineSize], raster[lineSize..];
    var body := PrintAll(LineCmds(line, prev));
    var size := videoSize + |body|;
    if lines == 1 {
      FinishBytes(size);
      EncodeStep(left, lineSize, 0, line, size);
    } else {
      EvenSize(left, lineSize, lines - 1, line, size);
    }
  }

  /** A raster that ends early leaves a stream of line commands only: no EOP, no padding. */
  lemma {:induction false} TruncatedHasNoEop(
    raster: seq<byte>, lineSize: nat, lines: nat, prev: seq<byte>, videoSize: nat)
    returns (cs: seq<Cmd>)
    requires lineSize >= 1 && RasterSize(lines, lineSize) > |raster| && (prev == [] || |prev| == lineSize)
    ensures Productive(cs) && Encode(raster, lineSize, lines, prev, videoSize) == PrintAll(cs)
    decreases lines
  {
    PrintAllNone();
    hide LineCmds, Encode, RasterSize, PrintAll;
    cs := [];
    EncodeStep(raster, lineSize, lines, prev, videoSize);
    OneLineLess(lineSize, 0);
    OneLineLess(lineSize, lines);
    if |raster| >= lineSize {
      var line, left := raster[..lineSize], raster[lineSize..];
      assert lines > 1;
      var more := TruncatedHasNoEop(left, lineSize, lines - 1, line, videoSize + |PrintAll(LineCmds(line, prev))|);
      LineProductive(line, prev);
      PrintAllAppend(LineCmds(line, prev), more);
      cs := LineCmds(line, prev) + more;
    }
  }
}

/** The two stream classes run against each other, as the repository's tests do. */
module CodecRun {
  import opened Bytes
  import opened Streams
  import opened Decoder
  import opened DecoderStreambufs
  import opened Encoder
  import opened ScoaStreambufs
  import opened Codec

  /** Reads a stream to its end in blocks of `readSize` bytes. */
  method ReadAll(encoder: ScoaStreambuf, readSize: nat) returns (all: seq<byte>)
    requires encoder.Valid() && readSize >= 1
    modifies encoder, encoder.rasterStream, encoder.buffer
    ensures all == old(encoder.Pending())
    ensures encoder.Valid() && encoder.rasterStream == old(encoder.rasterStream)
    ensures encoder.rasterStream.Rest() == old(encoder.SourceAfter())
  {
    hide Encode, ScoaStreambuf.Pending, ScoaStreambuf.SourceAfter, ScoaStreambuf.Area;
    all := [];
    ghost var whole := encoder.Pending();
    assert whole == [] + whole;
    while true
      invariant encoder.Valid() && encoder.rasterStream == old(encoder.rasterStream)
      invariant whole == all + encoder.Pending() && encoder.SourceAfter() == old(encoder.SourceAfter())
      decreases |encoder.Pending()|
    {
      ghost var left := encoder.Pending();
      var block := encoder.Sgetn(readSize);
      if |block| == 0 {
        assert all + [] == all;
        break;
      }
      TakeDrop(left, |block|);
      Assoc(all, block, encoder.Pending());
      all := all + block;
    }
  }

  /** Compresses `lines` lines of `raster` with reads of `readSize` bytes, then decodes the
      result. */
  method CompressAndDecode(raster: seq<byte>, lineSize: nat, lines: nat, readSize: nat)
    returns (decoded: seq<byte>, ending: Ending)
    requires lineSize >= 1 && readSize >= 1
    ensures decoded == TakeLines(raster, lineSize, lines)
    ensures ending == if lines >= 1 && RasterSize(lines, lineSize) <= |raster| then CleanEof else Thrown(UnexpectedEof)
  {
    hide Encode, EncodePage, DecodePage, TakeLines, RasterSize, DecoderStreambuf.Pending;
    var source := new ByteStream(raster);
    var encoder := new ScoaStreambuf.FromRaster(source, lineSize, lines);
    var compressed := ReadAll(encoder, readSize);
    AnySource(raster, lineSize, lines);
    var stream := new ByteStream(compressed);
    var decoder := new DecoderStreambuf(stream, lineSize);
    decoder.WholeLines();
    decoded, ending := decoder.Drain();
  }
}
