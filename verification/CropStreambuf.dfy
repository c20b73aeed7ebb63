/** Cutting margins off a stream of pages (libcapt/Utility/CropStreambuf.cpp). */
module Cropping {
  import opened Bytes

  /** The size of the pages in the source and of the part of each that is kept. */
  datatype Geometry = Geometry(origLineSize: nat, origLines: nat, cropLineSize: nat, cropLines: nat)

  predicate Sound(g: Geometry) {
    1 <= g.cropLineSize <= g.origLineSize && 1 <= g.cropLines <= g.origLines
  }

  function Drop(s: seq<byte>, n: nat): seq<byte> {
    s[Min(n, |s|)..]
  }

  /** The bytes of `n` source lines. */
  function Lines(g: Geometry, n: nat): nat {
    n * g.origLineSize
  }

  lemma LinesStep(g: Geometry, n: nat)
    ensures Lines(g, 0) == 0 && Lines(g, n + 1) == Lines(g, n) + g.origLineSize
  {
  }

  /** What is left out between the end of a kept line and the next kept byte. */
  function Margin(g: Geometry, line: nat): nat
    requires Sound(g) && line < g.cropLines
  {
    g.origLineSize - g.cropLineSize + if line + 1 == g.cropLines then Lines(g, g.origLines - g.cropLines) else 0
  }

  function NextLine(g: Geometry, line: nat): nat {
    if line + 1 == g.cropLines then 0 else line + 1
  }

  /** The kept bytes of source `src`, from byte `col` of line `line` of a page on. A source that
      ends inside a kept line gives what it has of it. */
  function Cropped(src: seq<byte>, g: Geometry, line: nat, col: nat): seq<byte>
    requires Sound(g) && line < g.cropLines && col < g.cropLineSize
    decreases |src|
  {
    var left := g.cropLineSize - col;
    if |src| < left then src
    else src[..left] + Cropped(Drop(src[left..], Margin(g, line)), g, NextLine(g, line), 0)
  }

  /** Reading part of a line. */
  lemma CroppedPart(src: seq<byte>, g: Geometry, line: nat, col: nat, k: nat)
    requires Sound(g) && line < g.cropLines && col + k < g.cropLineSize && k <= |src|
    ensures Cropped(src, g, line, col) == src[..k] + Cropped(src[k..], g, line, col + k)
  {
    hide Margin, NextLine;
    var left := g.cropLineSize - col;
    if |src| < left {
      assert src == src[..k] + src[k..];
    } else {
      assert src[k..][left - k..] == src[left..];
      assert src[..left] == src[..k] + src[k..][..left - k];
    }
  }

  /** Reading a line to its end. */
  lemma CroppedWhole(src: seq<byte>, g: Geometry, line: nat, col: nat)
    requires Sound(g) && line < g.cropLines && col < g.cropLineSize && g.cropLineSize - col <= |src|
    ensures var left := g.cropLineSize - col;
            Cropped(src, g, line, col) ==
            src[..left] + Cropped(Drop(src[left..], Margin(g, line)), g, NextLine(g, line), 0)
  {
    hide Margin, NextLine, Drop;
  }

  /** A source shows as much as it has of the line being read. */
  lemma PendingSize(src: seq<byte>, g: Geometry, line: nat, col: nat)
    requires Sound(g) && line < g.cropLines && col < g.cropLineSize
    ensures var left := g.cropLineSize - col;
            |Cropped(src, g, line, col)| >= Min(left, |src|) && (|src| < left ==> Cropped(src, g, line, col) == src)
  {
  }

  // ----- pages

  predicate PageOf(page: seq<seq<byte>>, g: Geometry) {
    |page| == g.origLines && forall i | 0 <= i < |page| :: |page[i]| == g.origLineSize
  }

  /** The first lines of a page and of each the first bytes. */
  function CropPage(page: seq<seq<byte>>, g: Geometry): seq<seq<byte>>
    requires Sound(g) && PageOf(page, g)
  {
    seq(g.cropLines, i requires 0 <= i < g.cropLines => page[i][..g.cropLineSize])
  }

  lemma {:induction false} FlattenSize(page: seq<seq<byte>>, g: Geometry)
    requires forall i | 0 <= i < |page| :: |page[i]| == g.origLineSize
    ensures |Flatten(page)| == Lines(g, |page|)
  {
    hide Lines;
    LinesStep(g, if page == [] then 0 else |page| - 1);
    if page != [] {
      FlattenSize(page[1..], g);
    }
  }

  /** From the start of line `i` of a page on: the kept parts of the page's other lines, and then
      what follows the page. */
  lemma {:induction false} CropLinesFrom(page: seq<seq<byte>>, g: Geometry, i: nat, tail: seq<byte>)
    requires Sound(g) && PageOf(page, g) && i < g.cropLines
    ensures Cropped(Flatten(page[i..]) + tail, g, i, 0) == Flatten(CropPage(page, g)[i..]) + Cropped(tail, g, 0, 0)
    decreases g.cropLines - i
  {
    hide Lines, Cropped;
    var line, c := page[i], g.cropLineSize;
    var below := Flatten(page[i + 1..]);
    var rows := CropPage(page, g);
    assert page[i..] == [line] + page[i + 1..];
    assert rows[i..] == [line[..c]] + rows[i + 1..];
    FlattenCons(line, page[i + 1..]);
    FlattenCons(line[..c], rows[i + 1..]);
    assert Flatten(page[i..]) + tail == line + (below + tail);
    CroppedLine(line, below + tail, g, i);
    var rest := line[c..] + (below + tail);
    if i + 1 == g.cropLines {
      FlattenSize(page[i + 1..], g);
      assert Drop(rest, Margin(g, i)) == tail;
      assert rows[i + 1..] == [];
    } else {
      assert Drop(rest, Margin(g, i)) == below + tail;
      CropLinesFrom(page, g, i + 1, tail);
    }
  }

  lemma FlattenCons(row: seq<byte>, rows: seq<seq<byte>>)
    ensures Flatten([row] + rows) == row + Flatten(rows)
  {
    assert ([row] + rows)[1..] == rows;
  }

  lemma CroppedLine(line: seq<byte>, rest: seq<byte>, g: Geometry, i: nat)
    requires Sound(g) && i < g.cropLines && |line| == g.origLineSize
    ensures Cropped(line + rest, g, i, 0) ==
            line[..g.cropLineSize] + Cropped(Drop(line[g.cropLineSize..] + rest, Margin(g, i)), g, NextLine(g, i), 0)
  {
    hide Margin, NextLine;
    var c := g.cropLineSize;
    assert (line + rest)[..c] == line[..c] && (line + rest)[c..] == line[c..] + rest;
  }

  /** Cropping a run of pages gives the kept part of each page, in order. */
  lemma {:induction false} CropPages(pages: seq<seq<seq<byte>>>, g: Geometry, tail: seq<byte>)
    requires Sound(g) && forall p | 0 <= p < |pages| :: PageOf(pages[p], g)
    ensures Cropped(PagesBytes(pages) + tail, g, 0, 0) == CropPagesBytes(pages, g) + Cropped(tail, g, 0, 0)
  {
    hide Cropped, CropPage;
    if pages == [] {
      assert PagesBytes(pages) + tail == tail;
    } else {
      var rest := PagesBytes(pages[1..]) + tail;
      assert PagesBytes(pages) + tail == Flatten(pages[0]) + rest;
      assert pages[0][0..] == pages[0] && CropPage(pages[0], g)[0..] == CropPage(pages[0], g);
      CropLinesFrom(pages[0], g, 0, rest);
      CropPages(pages[1..], g, tail);
    }
  }

  function PagesBytes(pages: seq<seq<seq<byte>>>): seq<byte> {
    if pages == [] then [] else Flatten(pages[0]) + PagesBytes(pages[1..])
  }

  function CropPagesBytes(pages: seq<seq<seq<byte>>>, g: Geometry): seq<byte>
    requires Sound(g) && forall p | 0 <= p < |pages| :: PageOf(pages[p], g)
  {
    if pages == [] then [] else Flatten(CropPage(pages[0], g)) + CropPagesBytes(pages[1..], g)
  }

  // ----- positions

  /** Where byte `col` of kept line `line` of page `page` is in the source. */
  function Position(g: Geometry, page: nat, line: nat, col: nat): nat {
    page * Lines(g, g.origLines) + Lines(g, line) + col
  }

  /** How many kept bytes come before it. */
  function Count(g: Geometry, page: nat, line: nat, col: nat): nat {
    page * (g.cropLines * g.cropLineSize) + line * g.cropLineSize + col
  }

  lemma PositionStep(g: Geometry, page: nat, line: nat, col: nat)
    requires Sound(g) && line < g.cropLines && col <= g.cropLineSize
    ensures Position(g, page, line, col) == Position(g, page, line, 0) + col
    ensures var next := if line + 1 == g.cropLines then page + 1 else page;
            && Position(g, next, NextLine(g, line), 0) == Position(g, page, line, g.cropLineSize) + Margin(g, line)
            && Count(g, next, NextLine(g, line), 0) == Count(g, page, line, g.cropLineSize)
  {
    hide Lines;
    LinesStep(g, line);
    OneMore(line, g.cropLineSize);
    if line + 1 == g.cropLines {
      LinesSum(g, g.cropLines, g.origLines - g.cropLines);
      OneMore(page, Lines(g, g.origLines));
      OneMore(page, g.cropLines * g.cropLineSize);
    }
  }

  lemma OneMore(n: nat, size: nat)
    ensures (n + 1) * size == n * size + size
  {
  }

  lemma LinesSum(g: Geometry, a: nat, b: nat)
    ensures Lines(g, a + b) == Lines(g, a) + Lines(g, b)
  {
  }

  lemma CountStep(g: Geometry, page: nat, line: nat, col: nat, k: nat)
    ensures Count(g, page, line, col + k) == Count(g, page, line, col) + k
    ensures Position(g, page, line, col + k) == Position(g, page, line, col) + k
  {
  }

  /** Once all kept bytes of `m` pages are out, the source is at the end of the m-th page. */
  lemma AtPageEnd(g: Geometry, page: nat, line: nat, col: nat, m: nat)
    requires Sound(g) && line < g.cropLines && col < g.cropLineSize
    requires Count(g, page, line, col) == Count(g, m, 0, 0)
    ensures page == m && line == 0 && col == 0
  {
    var size := g.cropLines * g.cropLineSize;
    var inPage := line * g.cropLineSize + col;
    assert inPage < size by {
      assert (line + 1) * g.cropLineSize == line * g.cropLineSize + g.cropLineSize;
      LessLines(line + 1, g.cropLines, g.cropLineSize);
    }
    assert (m - page) * size == inPage;
    SmallMultiple(m - page, size);
    assert inPage == 0;
    assert line >= 1 ==> line * g.cropLineSize >= g.cropLineSize;
  }

  lemma LessLines(a: nat, b: nat, c: nat)
    requires a <= b
    ensures a * c <= b * c
  {
  }

  lemma SmallMultiple(e: int, size: nat)
    requires size > 0 && 0 <= e * size < size
    ensures e == 0
  {
    if e >= 1 {
      assert e * size == size + (e - 1) * size;
      LessLines(0, e - 1, size);
      assert false;
    }
  }
}

module CropStreambufs {
  import opened Bytes
  import opened Streams
  import opened Cropping

  /** Takes `count` bytes off the stream; the count returned includes a read of end-of-file. */
  method Discard(stream: ByteStream, count: nat) returns (read: nat)
    requires stream.Valid()
    modifies stream`pos
    ensures stream.Valid() && stream.Rest() == Drop(old(stream.Rest()), count)
    ensures read == if count <= |old(stream.Rest())| then count else |old(stream.Rest())| + 1
    ensures stream.pos == Min(|stream.data|, old(stream.pos) + count)
  {
    read := 0;
    while read != count
      invariant stream.Valid() && 0 <= read <= count
      invariant old(stream.pos) + read == stream.pos
      decreases count - read
    {
      var c := stream.Sbumpc();
      read := read + 1;
      if c == None {
        assert stream.Rest() == [];
        break;
      }
      assert |stream.Rest()| == |stream.data| - stream.pos;
    }
  }

  class CropStreambuf {
    const rasterStream: ByteStream
    const g: Geometry
    var currentLine: nat
    var lineRead: nat
    // for the specification: the page being read, everything delivered, where reading began
    ghost var page: nat
    ghost var delivered: seq<byte>
    ghost const origin: nat

    /** The source is where the counts of pages, lines and bytes say, and so is the output. */
    ghost predicate InPlace()
      reads this, rasterStream
    {
      |delivered| == Count(g, page, currentLine, lineRead) &&
      rasterStream.pos == Min(|rasterStream.data|, origin + Position(g, page, currentLine, lineRead))
    }

    ghost predicate Valid()
      reads this, rasterStream
    {
      && rasterStream.Valid() && Sound(g) && origin <= |rasterStream.data|
      && currentLine < g.cropLines && lineRead < g.cropLineSize
      && InPlace()
      && delivered + Pending() == Cropped(rasterStream.data[origin..], g, 0, 0)
    }

    /** What reads have yet to deliver. */
    ghost function Pending(): seq<byte>
      reads this, rasterStream
      requires rasterStream.Valid() && Sound(g) && currentLine < g.cropLines && lineRead < g.cropLineSize
    {
      Cropped(rasterStream.Rest(), g, currentLine, lineRead)
    }

    /** After the kept bytes of `m` pages the source is at the end of the m-th page. */
    lemma PagesDone(m: nat)
      requires Valid() && |delivered| == Count(g, m, 0, 0)
      ensures rasterStream.pos == Min(|rasterStream.data|, origin + Position(g, m, 0, 0))
      ensures currentLine == 0 && lineRead == 0
    {
      hide Cropped, Count, Position;
      AtPageEnd(g, page, currentLine, lineRead, m);
    }

    constructor (rasterStream: ByteStream, g: Geometry)
      requires rasterStream.Valid() && Sound(g)
      ensures Valid() && this.rasterStream == rasterStream && this.g == g
      ensures delivered == [] && origin == rasterStream.pos
    {
      this.rasterStream, this.g := rasterStream, g;
      currentLine, lineRead := 0, 0;
      page, delivered, origin := 0, [], rasterStream.pos;
      new;
      assert Position(g, 0, 0, 0) == 0 && Count(g, 0, 0, 0) == 0;
    }

    /** Skips what is left of the page, line by line. */
    method DiscardLines()
      requires rasterStream.Valid() && Sound(g) && currentLine <= g.origLines
      modifies this`currentLine, rasterStream`pos
      ensures rasterStream.Valid() && currentLine == 0
      ensures rasterStream.pos ==
              Min(|rasterStream.data|, old(rasterStream.pos) + Lines(g, g.origLines - old(currentLine)))
    {
      hide Lines;
      LinesStep(g, 0);
      while currentLine != g.origLines
        invariant rasterStream.Valid() && old(currentLine) <= currentLine <= g.origLines
        invariant rasterStream.pos ==
                  Min(|rasterStream.data|, old(rasterStream.pos) + Lines(g, currentLine - old(currentLine)))
        decreases g.origLines - currentLine
      {
        var n := Discard(rasterStream, g.origLineSize);
        if n == 0 {
          break;
        }
        LinesStep(g, currentLine - old(currentLine));
        currentLine := currentLine + 1;
      }
      currentLine := 0;
    }

    /** Skips the margin of a line whose kept part has been read. */
    method EndLine()
      requires rasterStream.Valid() && Sound(g) && currentLine < g.cropLines && lineRead == g.cropLineSize
      modifies this`currentLine, this`lineRead, rasterStream`pos
      ensures rasterStream.Valid() && lineRead == 0
      ensures currentLine == NextLine(g, old(currentLine)) && currentLine < g.cropLines
      ensures rasterStream.pos == Min(|rasterStream.data|, old(rasterStream.pos) + Margin(g, old(currentLine)))
    {
      hide Lines;
      var n := Discard(rasterStream, g.origLineSize - g.cropLineSize);
      lineRead := 0;
      currentLine := currentLine + 1;
      if currentLine == g.cropLines {
        DiscardLines();
      }
    }

    /** `EndLine` keeps the position law. */
    method FinishLine()
      requires rasterStream.Valid() && Sound(g) && currentLine < g.cropLines && lineRead == g.cropLineSize
      requires InPlace()
      modifies this`currentLine, this`lineRead, this`page, rasterStream`pos
      ensures rasterStream.Valid() && currentLine < g.cropLines && lineRead == 0
      ensures InPlace()
      ensures Pending() ==
              Cropped(Drop(old(rasterStream.Rest()), Margin(g, old(currentLine))), g, NextLine(g, old(currentLine)), 0)
    {
      hide Cropped, Position, Count, Margin;
      ghost var src, skip := rasterStream.Rest(), Margin(g, currentLine);
      PositionStep(g, page, currentLine, 0);
      if currentLine + 1 == g.cropLines {
        page := page + 1;
      }
      EndLine();
      assert rasterStream.Rest() == Drop(src, skip);
    }

    /** One read of the source, inside a line. */
    method ReadInLine(n: nat) returns (s: seq<byte>)
      requires Valid()
      requires n >= 1
      modifies this, rasterStream`pos
      ensures Valid()
      ensures var want := Min(n, g.cropLineSize - old(lineRead));
              |s| == Min(want, |old(Pending())|) && (|s| == g.cropLineSize - old(lineRead) ==> lineRead == 0)
      ensures |s| < g.cropLineSize - old(lineRead) ==> lineRead == old(lineRead) + |s|
      ensures old(Pending()) == s + Pending() && delivered == old(delivered) + s
    {
      hide Cropped, Position, Count, Margin, NextLine, Drop, Sound;
      ghost var src, line, col, before := rasterStream.Rest(), currentLine, lineRead, Pending();
      PendingSize(src, g, line, col);
      var count := Min(n, g.cropLineSize - lineRead);
      s := rasterStream.Sgetn(count);
      lineRead := lineRead + |s|;
      delivered := delivered + s;
      CountStep(g, page, line, col, |s|);
      if lineRead == g.cropLineSize {
        CroppedWhole(src, g, line, col);
        FinishLine();
      } else {
        CroppedPart(src, g, line, col, |s|);
      }
      assert before == s + Pending();
      Assoc(old(delivered), s, Pending());
    }

    /** How many bytes a read of `n` delivers while the source lasts: all of them when they fit
        the line or when more than a line is asked for, and otherwise the rest of the line. */
    ghost function Wanted(n: int): nat
      reads this
      requires lineRead < g.cropLineSize
    {
      if n <= 0 then 0
      else if n > g.cropLineSize || n <= g.cropLineSize - lineRead then n
      else g.cropLineSize - lineRead
    }

    /** `xsgetn`; a count that is not positive is returned as it came. */
    method Xsgetn(n: int) returns (result: int, s: seq<byte>)
      requires Valid()
      modifies this, rasterStream`pos
      ensures Valid()
      ensures |s| == Min(old(Wanted(n)), |old(Pending())|)
      ensures result == if n <= 0 then n else |s|
      ensures n == g.cropLineSize && |s| == old(Wanted(n)) ==> lineRead == 0
      ensures old(Pending()) == s + Pending() && delivered == old(delivered) + s
      decreases n > g.cropLineSize, 1
    {
      hide Cropped, Position, Count, Sound;
      if n <= 0 {
        return n, [];
      }
      ghost var all := Pending();
      var left, ended;
      left, s, ended := ReadLines(n);
      if ended {
        return |s|, s;
      }
      var bytes := ReadInLine(left);
      Assoc(s, bytes, Pending());
      Assoc(old(delivered), s, bytes);
      s := s + bytes;
      result := |s|;
    }

    /** The loop of `xsgetn`: a call of itself for each line, until what is left fits a line. */
    method ReadLines(n: nat) returns (left: nat, s: seq<byte>, ended: bool)
      requires Valid() && n >= 1
      modifies this, rasterStream`pos
      ensures Valid()
      ensures 1 <= left && |s| == n - left
      ensures ended ==> n > g.cropLineSize && Pending() == []
      ensures !ended ==> left <= g.cropLineSize
      ensures n <= g.cropLineSize ==> s == [] && lineRead == old(lineRead)
      ensures n > g.cropLineSize ==> lineRead == 0 || Pending() == []
      ensures old(Pending()) == s + Pending() && delivered == old(delivered) + s
      decreases n > g.cropLineSize, 0
    {
      hide Cropped, Position, Count, Sound;
      ghost var all := Pending();
      s, left, ended := [], n, false;
      while left > g.cropLineSize
        invariant Valid() && left >= 1 && |s| == n - left
        invariant s == [] ==> lineRead == old(lineRead)
        invariant s != [] ==> n > g.cropLineSize && (lineRead == 0 || Pending() == [])
        invariant all == s + Pending() && delivered == old(delivered) + s
        decreases left
      {
        var read, bytes := Xsgetn(g.cropLineSize);
        Assoc(s, bytes, Pending());
        Assoc(old(delivered), s, bytes);
        s := s + bytes;
        if read == 0 {
          ended := true;
          return;
        }
        left := left - read;
      }
    }

    /** `underflow`: a look at the next byte. */
    method Sgetc() returns (c: Option<byte>)
      requires Valid()
      ensures c == if Pending() == [] then None else Some(Pending()[0])
    {
      c := rasterStream.Sgetc();
    }

    /** `uflow`: takes the next byte. */
    method Sbumpc() returns (c: Option<byte>)
      requires Valid()
      modifies this, rasterStream`pos
      ensures Valid()
      ensures if old(Pending()) == [] then c == None && Pending() == []
              else c == Some(old(Pending())[0]) && Pending() == old(Pending())[1..]
      ensures delivered == old(delivered) + if c == None then [] else [c.value]
    {
      hide Cropped, Position, Count;
      var n, s := Xsgetn(1);
      c := if n == 0 then None else Some(s[0]);
    }
  }
}
