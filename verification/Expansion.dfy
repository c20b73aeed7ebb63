/** How much longer than a line its commands can be. */
module Expansion {
  import opened Bytes
  import opened ScoaCmd
  import opened ScoaSplit
  import opened Segments
  import opened Encoder
  import opened ScoaStreambufs

  function Size(cs: seq<Cmd>): nat
    requires AllInRange(cs)
  {
    |PrintAll(cs)|
  }

  lemma SizeAppend(a: seq<Cmd>, b: seq<Cmd>)
    requires AllInRange(a) && AllInRange(b)
    ensures AllInRange(a + b) && Size(a + b) == Size(a) + Size(b)
  {
    PrintAllAppend(a, b);
  }

  lemma SizeCons(c: Cmd, cs: seq<Cmd>)
    requires InRange(c) && AllInRange(cs)
    ensures AllInRange([c] + cs) && Size([c] + cs) == |Print(c)| + Size(cs)
  {
    SizeAppend([c], cs);
    PrintAllOne(c);
  }

  lemma SizeNone()
    ensures Size([]) == 0
  {
  }

  // Each bound compares nine times the command bytes with ten times the line's bytes.

  lemma {:induction false} CopyPiecesBound(n: nat)
    ensures 8 * Size(CopyPieces(n)) <= n
  {
    hide PrintAll;
    if n < 8 {
      SizeNone();
    } else {
      SizeCons(CopyLong(CopyPiece(n)), CopyPieces(n - CopyPiece(n)));
      CopyPiecesBound(n - CopyPiece(n));
    }
  }

  lemma {:induction false} RawPiecesBound(copy: nat, raw: seq<byte>)
    requires copy <= 7 && (copy == 0 || raw != [])
    ensures 9 * Size(RawPieces(copy, raw)) <= 10 * |raw| + if raw == [] then 0 else 10
    decreases |raw|
  {
    SizeNone();
    hide Size;
    if |raw| >= 8 {
      var k := Min(|raw|, 255);
      SizeCons(CopyThenRawLong(copy, raw[..k]), RawPieces(0, raw[k..]));
      RawPiecesBound(0, raw[k..]);
    } else if copy != 0 || raw != [] {
      SizeCons(CopyThenRaw(copy, raw), []);
      assert [CopyThenRaw(copy, raw)] + [] == [CopyThenRaw(copy, raw)];
    }
  }

  lemma {:induction false} RepeatPiecesBound(copy: nat, count: nat, b: byte)
    requires copy <= 7 && (copy == 0 || count >= 2)
    ensures 9 * Size(RepeatPieces(copy, count, b)) <= 10 * count + if count == 1 then 8 else 0
    decreases count
  {
    SizeNone();
    hide Size;
    if count >= 8 {
      var k := Min(count, 255);
      SizeCons(CopyThenRepeatLong(copy, k, b), RepeatPieces(0, count - k, b));
      RepeatPiecesBound(0, count - k, b);
    } else if count >= 2 {
      SizeCons(CopyThenRepeat(copy, count, b), []);
      assert [CopyThenRepeat(copy, count, b)] + [] == [CopyThenRepeat(copy, count, b)];
    } else if count == 1 {
      SizeCons(CopyThenRaw(copy, [b]), []);
      assert [CopyThenRaw(copy, [b])] + [] == [CopyThenRaw(copy, [b])];
    }
  }

  lemma {:induction false} RepeatXPiecesBound(count: nat)
    ensures 9 * Size(RepeatXPieces(count)) <= 10 * count
  {
    SizeNone();
    hide Size;
    if count >= 8 {
      var k := Min(count, 255);
      SizeCons(RepeatXLong(k), RepeatXPieces(count - k));
      RepeatXPiecesBound(count - k);
    } else if count != 0 {
      SizeCons(RepeatX(count), []);
      assert [RepeatX(count)] + [] == [RepeatX(count)];
    }
  }

  lemma {:induction false} RepeatThenRawBound(count: nat, b: byte, raw: seq<byte>)
    requires raw != []
    ensures 9 * Size(RepeatThenRawCmds(count, b, raw)) <= 10 * (count + |raw|) + if count < 2 then 18 else 0
    decreases count
  {
    hide Size;
    if count >= 8 {
      var k := Min(count, 255);
      SizeCons(CopyThenRepeatLong(0, k, b), RepeatThenRawCmds(count - k, b, raw));
      RepeatThenRawBound(count - k, b, raw);
    } else if count < 2 {
      SizeAppend(RepeatPieces(0, count, b), RawPieces(0, raw));
      RepeatPiecesBound(0, count, b);
      RawPiecesBound(0, raw);
    } else if |raw| <= 7 {
      SizeNone();
      SizeCons(RepeatThenRaw(count, b, raw), []);
      assert [RepeatThenRaw(count, b, raw)] + [] == [RepeatThenRaw(count, b, raw)];
    } else {
      var k := Min(|raw|, 255);
      SizeCons(RepeatThenRawLong(count, b, raw[..k]), RawPieces(0, raw[k..]));
      RawPiecesBound(0, raw[k..]);
    }
  }

  /** What the segments of one `nextCmd` may cost. Only a Raw segment by itself may cost more
      than ten ninths of its bytes, and a Copy with a Repeat makes up for one that follows. */
  function Allowance(fs: seq<Func>, line: seq<byte>): int
    requires fs != [] && InLine(fs, line)
  {
    var f := fs[0];
    var n := Taken(fs, line);
    var bytes := if n == 1 then f.count else f.count + fs[1].count;
    10 * bytes + if f.kind == Raw then 10
                 else if n == 2 && f.kind == Copy && fs[1].kind == Repeat then -10
                 else 0
  }

  lemma FirstCmdsBound(line: seq<byte>, prev: seq<byte>, i: nat)
    requires LinePair(line, prev) && i < |line|
    requires InLine(SegmentsFrom(line, prev, i), line)
    ensures var fs := SegmentsFrom(line, prev, i);
            9 * Size(FirstCmds(fs, line)) <= Allowance(fs, line)
  {
    var fs := SegmentsFrom(line, prev, i);
    FirstTwo(line, prev, i);
    hide SegmentsFrom, Size, CopyPieces, RawPieces, RepeatPieces, RepeatXPieces, RepeatThenRawCmds;
    var f := fs[0];
    match f.kind
    case Copy =>
      if f.End() == |line| {
        SizeNone();
        SizeCons(EOL, []);
        assert [EOL] + [] == [EOL];
      } else {
        CopyPiecesBound(f.count);
        if fs[1].kind == Repeat {
          var rest := RepeatPieces(f.count % 8, fs[1].count, line[fs[1].index]);
          RepeatPiecesBound(f.count % 8, fs[1].count, line[fs[1].index]);
          SizeAppend(CopyPieces(f.count), rest);
        } else {
          RawPiecesBound(f.count % 8, Payload(fs[1], line));
          SizeAppend(CopyPieces(f.count), RawPieces(f.count % 8, Payload(fs[1], line)));
        }
      }
    case Repeat =>
      if |fs| > 1 && fs[1].kind == Raw {
        RepeatThenRawBound(f.count, line[f.index], Payload(fs[1], line));
      } else {
        RepeatXPiecesBound(f.count);
        RepeatPiecesBound(0, f.count, line[f.index]);
      }
    case Raw =>
      RawPiecesBound(0, Payload(f, line));
  }

  /** A Raw segment stands alone only at the start of the line or after a Copy with a Repeat. */
  lemma LoneRaw(line: seq<byte>, prev: seq<byte>, i: nat, j: nat)
    requires LinePair(line, prev) && i < j < |line|
    requires var fs := SegmentsFrom(line, prev, i);
             InLine(fs, line) && fs[Taken(fs, line)..] == SegmentsFrom(line, prev, j)
    ensures var fs := SegmentsFrom(line, prev, i);
            SegmentAt(line, prev, j).kind == Raw ==>
              Taken(fs, line) == 2 && fs[0].kind == Copy && fs[1].kind == Repeat
  {
    var fs := SegmentsFrom(line, prev, i);
    var f := SegmentAt(line, prev, i);
    assert fs[0] == f && fs[1..] == SegmentsFrom(line, prev, f.End());
    SegmentsStart(line, prev, j);
    SegmentsStart(line, prev, f.End());
    FirstTwo(line, prev, i);
    if Taken(fs, line) == 2 {
      var g := SegmentAt(line, prev, f.End());
      assert fs[1] == g && fs[1..][1..] == SegmentsFrom(line, prev, g.End());
      SegmentsStart(line, prev, g.End());
      hide SegmentsFrom, SegmentAt;
      Neighbours(line, prev, g.index);
    } else {
      hide SegmentsFrom, SegmentAt;
      Neighbours(line, prev, i);
    }
  }

  /** The segments `nextCmd` takes cover the line up to where it goes on. */
  lemma TakenBytes(line: seq<byte>, prev: seq<byte>, i: nat, j: nat)
    requires LinePair(line, prev) && i < j <= |line|
    requires var fs := SegmentsFrom(line, prev, i);
             InLine(fs, line) && fs[Taken(fs, line)..] == SegmentsFrom(line, prev, j)
    ensures var fs := SegmentsFrom(line, prev, i);
            j - i == if Taken(fs, line) == 1 then fs[0].count else fs[0].count + fs[1].count
  {
    var fs := SegmentsFrom(line, prev, i);
    var f := SegmentAt(line, prev, i);
    assert fs[0] == f && fs[1..] == SegmentsFrom(line, prev, f.End());
    if Taken(fs, line) == 2 {
      var g := SegmentAt(line, prev, f.End());
      assert fs[1] == g && fs[1..][1..] == SegmentsFrom(line, prev, g.End());
      SegmentsStart(line, prev, g.End());
    } else {
      SegmentsStart(line, prev, f.End());
    }
    SegmentsStart(line, prev, j);
  }

  lemma {:induction false} CmdsBound(line: seq<byte>, prev: seq<byte>, i: nat)
    requires LinePair(line, prev) && i <= |line|
    ensures 9 * Size(CmdsFrom(line, prev, i)) <=
            10 * (|line| - i) + if i < |line| && SegmentAt(line, prev, i).kind == Raw then 10 else 0
    decreases |line| - i
  {
    if i == |line| {
      CmdsFromEnd(line, prev);
    } else {
      var j, cs := CmdsFromStep(line, prev, i);
      assert SegmentsFrom(line, prev, i)[0] == SegmentAt(line, prev, i);
      hide SegmentsFrom, SegmentAt, FirstCmds, Size, CmdsFrom;
      FirstCmdsBound(line, prev, i);
      TakenBytes(line, prev, i, j);
      SizeAppend(cs, CmdsFrom(line, prev, j));
      CmdsBound(line, prev, j);
      if j < |line| {
        LoneRaw(line, prev, i, j);
      }
    }
  }

  /** The worst case: a line of n bytes takes at most n + (n + 10) / 9 bytes of commands. */
  lemma LineExpansion(line: seq<byte>, prev: seq<byte>)
    requires LinePair(line, prev)
    ensures |PrintAll(LineCmds(line, prev))| <= |line| + (|line| + 10) / 9
    ensures |PrintAll(LineCmds(line, prev))| <= |line| + |line| / 9 + 2
  {
    CmdsBound(line, prev, 0);
  }

  // ----- lines that reach the bound

  /** How many times the worst line of `n` bytes goes back to the line above it. */
  function Copies(n: nat): nat {
    if n < 8 then 0 else (n - 8) / 9
  }

  /** Eight bytes to send raw, then one that equals the line above, over and over; what is left
      of the `n` bytes is raw. */
  function WorstLine(n: nat): (line: seq<byte>)
    ensures |line| == n
  {
    seq(n, i requires 0 <= i => if i % 9 == 8 && i < 9 * Copies(n) then 0 else 1 + i % 2)
  }

  /** The bytes of the raw segment that begins at nine times `q`. */
  function RawRun(n: nat, q: nat): int {
    if q < Copies(n) then 8 else n - 9 * q
  }

  lemma WorstRaw(n: nat, q: nat)
    requires n >= 1 && q <= Copies(n)
    ensures 1 <= RawRun(n, q) <= 16
    ensures SegmentAt(WorstLine(n), Fill(n, 0), 9 * q) == Func(Raw, 9 * q, RawRun(n, q))
  {
    var line, prev := WorstLine(n), Fill(n, 0);
    var f := Func(Raw, 9 * q, RawRun(n, q));
    assert forall i | 9 * q <= i < 9 * q + 8 :: i % 9 == i - 9 * q;
    assert forall i | 9 * q < i < f.End() :: i % 2 != (i - 1) % 2;
    assert (9 * q + 8) % 9 == 8;
    assert Segment(f, line, prev);
    SegmentAtIs(line, prev, 9 * q);
    hide Segment;
    SegmentUnique(f, SegmentAt(line, prev, 9 * q), line, prev);
  }

  lemma WorstCopy(n: nat, q: nat)
    requires q < Copies(n)
    ensures SegmentAt(WorstLine(n), Fill(n, 0), 9 * q + 8) == Func(Copy, 9 * q + 8, 1)
  {
    var line, prev := WorstLine(n), Fill(n, 0);
    var f := Func(Copy, 9 * q + 8, 1);
    assert (9 * q + 8) % 9 == 8 && (9 * q + 9) % 9 == 0;
    assert Segment(f, line, prev);
    SegmentAtIs(line, prev, 9 * q + 8);
    hide Segment;
    SegmentUnique(f, SegmentAt(line, prev, 9 * q + 8), line, prev);
  }

  /** A short stretch of raw bytes takes one command. */
  lemma RawSize(copy: nat, raw: seq<byte>)
    requires copy <= 7 && 1 <= |raw| <= 16
    ensures Size(RawPieces(copy, raw)) == |raw| + if |raw| < 8 then 1 else 2
  {
    SizeNone();
    hide Size;
    var c := if |raw| < 8 then CopyThenRaw(copy, raw) else CopyThenRawLong(copy, raw);
    assert raw[..|raw|] == raw && raw[|raw|..] == [];
    SizeCons(c, []);
    assert RawPieces(copy, raw) == [c] + [];
  }

  lemma OneThenRaw(raw: seq<byte>)
    requires raw != []
    ensures CopyThenRawCmds(1, raw) == RawPieces(1, raw)
  {
  }

  lemma WorstPair(n: nat, q: nat)
    requires q < Copies(n)
    ensures var fs := SegmentsFrom(WorstLine(n), Fill(n, 0), 9 * q + 8);
            |fs| >= 2 && fs[0] == Func(Copy, 9 * q + 8, 1) && fs[1] == Func(Raw, 9 * q + 9, RawRun(n, q + 1))
  {
    WorstCopy(n, q);
    WorstRaw(n, q + 1);
    var line, prev := WorstLine(n), Fill(n, 0);
    hide WorstLine, Fill, SegmentAt;
    var fs := SegmentsFrom(line, prev, 9 * q + 8);
    assert fs[1..] == SegmentsFrom(line, prev, 9 * q + 9);
  }

  /** After a raw segment, each byte that equals the line above costs as much again as a byte. */
  lemma {:induction false} WorstFrom(n: nat, q: nat)
    requires n >= 1 && q <= Copies(n)
    ensures 9 * q + RawRun(n, q) <= n
    ensures Size(CmdsFrom(WorstLine(n), Fill(n, 0), 9 * q + RawRun(n, q))) ==
            n - 9 * q - RawRun(n, q) + Copies(n) - q
    decreases Copies(n) - q
  {
    hide WorstLine, Fill, Size, SegmentsFrom, CopyThenRawCmds, CmdsFrom;
    var line, prev := WorstLine(n), Fill(n, 0);
    var i := 9 * q + RawRun(n, q);
    if q == Copies(n) {
      CmdsFromEnd(line, prev);
      SizeNone();
    } else {
      var j, cs := CmdsFromStep(line, prev, i);
      var fs := SegmentsFrom(line, prev, i);
      WorstPair(n, q);
      WorstRaw(n, q + 1);
      TakenBytes(line, prev, i, j);
      OneThenRaw(Payload(fs[1], line));
      RawSize(1, Payload(fs[1], line));
      SizeAppend(cs, CmdsFrom(line, prev, j));
      WorstFrom(n, q + 1);
    }
  }

  /** The bound is met by a line of every length but none. */
  lemma LineExpansionTight(n: nat)
    requires n >= 1
    ensures |PrintAll(LineCmds(WorstLine(n), Fill(n, 0)))| == n + (n + 10) / 9
  {
    var line, prev := WorstLine(n), Fill(n, 0);
    var j, cs := CmdsFromStep(line, prev, 0);
    var fs := SegmentsFrom(line, prev, 0);
    WorstRaw(n, 0);
    assert fs[0] == Func(Raw, 0, RawRun(n, 0));
    hide WorstLine, Fill, SegmentsFrom, SegmentAt, CmdsFrom, PrintAll;
    TakenBytes(line, prev, 0, j);
    RawSize(0, Payload(fs[0], line));
    SizeAppend(cs, CmdsFrom(line, prev, j));
    WorstFrom(n, 0);
  }
}
