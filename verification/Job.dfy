/** Whole jobs: pages compressed, cut into packets, found again among them and decompressed
    (tests/Compression/compressor.cpp, tests/Compression/decoder.cpp). */
module Jobs {
  import opened Bytes
  import opened Packets
  import opened BufferedPages
  import opened Transmissions
  import opened Depacketising
  import opened Decoder
  import opened Encoder
  import opened Codec

  /** The packets of one page, and any that come before it. */
  datatype SentPage = SentPage(before: seq<Packet>, params: PageParams, inner: seq<Packet>) {
    function Header(): Packet {
      Packet(IC_BEGIN_PAGE, BeginPagePayload(params))
    }

    function All(): seq<Packet> {
      before + ([Header()] + (inner + [EndPacket()]))
    }
  }

  function EndPacket(): Packet {
    Packet(IC_END_PAGE, [])
  }

  function JobPackets(sent: seq<SentPage>): seq<Packet> {
    if sent == [] then [] else sent[0].All() + JobPackets(sent[1..])
  }

  predicate NoHeaders(ps: seq<Packet>) {
    forall i | 0 <= i < |ps| :: ps[i].opcode != IC_BEGIN_PAGE
  }

  /** Packets that neither begin nor end a page. */
  predicate Inner(ps: seq<Packet>) {
    NoHeaders(ps) && NoEmptyBlocks(ps) && forall i | 0 <= i < |ps| :: !EndsVideo(ps[i])
  }

  /** The page's compressed stream is in the packets, under a header with its sizes, of which
      only 16 bits are kept. */
  predicate Carries(s: SentPage, page: Page)
    requires page.lineSize >= 1
  {
    && NoHeaders(s.before) && Inner(s.inner)
    && s.params.imageLineSize == page.lineSize % 0x1_0000 && s.params.imageLines == page.lines % 0x1_0000
    && VideoOf(s.inner) == EncodePage(page.raster, page.lineSize, page.lines)
  }

  lemma InnerFirst(inner: seq<Packet>)
    requires Inner(inner) && inner != []
    ensures Inner(inner[1..]) && !EndsVideo(inner[0]) && inner[0].opcode != IC_BEGIN_PAGE
  {
  }

  lemma {:induction false} VideoAppend(inner: seq<Packet>, rest: seq<Packet>)
    requires Inner(inner)
    ensures VideoOf(inner + rest) == VideoOf(inner) + VideoOf(rest)
  {
    hide VideoOf, Inner, EndsVideo;
    if inner == [] {
      assert inner + rest == rest;
      VideoNone();
    } else {
      assert (inner + rest)[0] == inner[0] && (inner + rest)[1..] == inner[1..] + rest;
      InnerFirst(inner);
      VideoAppend(inner[1..], rest);
      VideoFirst(inner);
      VideoFirst(inner + rest);
    }
  }

  lemma VideoNone()
    ensures VideoOf([]) == []
  {
  }

  lemma VideoFirst(ps: seq<Packet>)
    requires ps != [] && !EndsVideo(ps[0])
    ensures VideoOf(ps) == (if ps[0].opcode == IC_VIDEO_DATA then ps[0].payload else []) + VideoOf(ps[1..])
  {
  }

  lemma {:induction false} FindSkips(before: seq<Packet>, rest: seq<Packet>)
    requires NoHeaders(before)
    ensures FindHeader(before + rest) == FindHeader(rest)
  {
    if before == [] {
      assert before + rest == rest;
    } else {
      assert (before + rest)[0] == before[0] && (before + rest)[1..] == before[1..] + rest;
      FindSkips(before[1..], rest);
    }
  }

  lemma LeftFirst(ps: seq<Packet>, k: nat)
    requires ps != [] && !EndsVideo(ps[0]) && k > 0
    ensures Left(ps, k) ==
            if ps[0].opcode != IC_VIDEO_DATA then Left(ps[1..], k)
            else if |ps[0].payload| >= k then ps[1..]
            else Left(ps[1..], k - |ps[0].payload|)
  {
  }

  /** However far into a page's video stream the reader has got, the next header it finds is
      that of the next page. */
  lemma {:induction false} LeftWithin(inner: seq<Packet>, tail: seq<Packet>, k: nat)
    requires Inner(inner) && k <= |VideoOf(inner)|
    ensures FindHeader(Left(inner + ([EndPacket()] + tail), k)) == FindHeader(tail)
    decreases |inner|
  {
    hide VideoOf, FindHeader, NoEmptyBlocks, Left;
    var rest := [EndPacket()] + tail;
    FindSkips([EndPacket()], tail);
    FindSkips(inner, rest);
    LeftNothing(inner + rest);
    if k > 0 {
      VideoNone();
      InnerFirst(inner);
      VideoFirst(inner);
      assert (inner + rest)[0] == inner[0] && (inner + rest)[1..] == inner[1..] + rest;
      FindSkips(inner[1..], rest);
      LeftFirst(inner + rest, k);
      if inner[0].opcode != IC_VIDEO_DATA {
        LeftWithin(inner[1..], tail, k);
      } else if |inner[0].payload| < k {
        LeftWithin(inner[1..], tail, k - |inner[0].payload|);
      }
    }
  }

  lemma HeaderFound(s: SentPage, tail: seq<Packet>)
    requires NoHeaders(s.before)
    ensures FindHeader(s.All() + tail) ==
            PageHeader(s.params.imageLineSize, s.params.imageLines, s.inner + ([EndPacket()] + tail))
  {
    var rest := [s.Header()] + (s.inner + ([EndPacket()] + tail));
    assert s.All() + tail == s.before + rest;
    FindSkips(s.before, rest);
    assert rest[0] == s.Header() && rest[1..] == s.inner + ([EndPacket()] + tail);
    PayloadSizes(s.params);
  }

  lemma PayloadSizes(params: PageParams)
    ensures var p := BeginPagePayload(params);
            Wide(p[27], p[26]) == params.imageLineSize && Wide(p[29], p[28]) == params.imageLines
  {
    var p := BeginPagePayload(params);
    assert p[26..30] == Little16(params.imageLineSize) + Little16(params.imageLines);
    assert p[26] == p[26..30][0] && p[27] == p[26..30][1] && p[28] == p[26..30][2] && p[29] == p[26..30][3];
  }

  predicate LinesNotEmpty(pages: seq<Page>) {
    forall i | 0 <= i < |pages| :: pages[i].lineSize >= 1
  }

  predicate LineSizesFit(pages: seq<Page>) {
    forall i | 0 <= i < |pages| :: 1 <= pages[i].lineSize <= 0xffff
  }

  /** What decoding a job must give: the pages, whole lines only; the first page that has too
      few lines in its source, or more lines than the header can say, ends it. */
  function Outcome(pages: seq<Page>): Result<seq<Page>, JobError>
    requires LineSizesFit(pages)
  {
    if pages == [] then Ok([])
    else
      var p := pages[0];
      if p.lines % 0x1_0000 == 0 then Err(NoLines)
      else if |p.raster| < RasterSize(p.lines, p.lineSize) then Err(Undecodable(UnexpectedEof))
      else if p.lines > 0xffff then Err(SizeMismatch)
      else After([Page(p.lineSize, p.lines, TakeLines(p.raster, p.lineSize, p.lines))], Outcome(pages[1..]))
  }

  /** What becomes of the first page of a job. */
  lemma FirstPage(s: SentPage, page: Page, tail: seq<Packet>)
    requires 1 <= page.lineSize <= 0xffff && Carries(s, page)
    ensures var r := DecodeJob(s.All() + tail);
            if page.lines % 0x1_0000 == 0 then r == Err(NoLines)
            else if |page.raster| < RasterSize(page.lines, page.lineSize) then r == Err(Undecodable(UnexpectedEof))
            else if page.lines > 0xffff then r == Err(SizeMismatch)
            else
              var raster := TakeLines(page.raster, page.lineSize, page.lines);
              r == After([Page(page.lineSize, page.lines, raster)], DecodeJob(tail))
  {
    hide RasterSize, DecodePage, TakeLines, Encode, EncodePage, SentPage.All, Left, FindHeader, VideoOf;
    HeaderFound(s, tail);
    var rest, lines := s.inner + ([EndPacket()] + tail), page.lines % 0x1_0000;
    VideoAppend(s.inner, [EndPacket()] + tail);
    NoVideo(tail);
    var video := VideoOf(rest);
    assert video == VideoOf(s.inner);
    if lines != 0 {
      AnySource(page.raster, page.lineSize, page.lines);
      TakeLinesIs(page.raster, page.lineSize, page.lines);
      Truncated(page.lineSize, page.lines);
      LeftWithin(s.inner, tail, |video|);
      SameHeaderSameJob(Left(rest, |video|), tail);
    }
  }

  lemma SameHeaderSameJob(a: seq<Packet>, b: seq<Packet>)
    requires FindHeader(a) == FindHeader(b)
    ensures DecodeJob(a) == DecodeJob(b)
  {
    hide DecodePage;
  }

  lemma NoVideo(tail: seq<Packet>)
    ensures VideoOf([EndPacket()] + tail) == []
  {
  }

  /** A line count that does not fit 16 bits gives a wrong size. */
  lemma Truncated(lineSize: nat, lines: nat)
    requires lineSize >= 1
    ensures RasterSize(lines, lineSize) == lineSize * lines
    ensures lines > 0xffff ==> RasterSize(lines, lineSize) != lineSize * (lines % 0x1_0000)
  {
    if lines > 0xffff {
      var d := lines - lines % 0x1_0000;
      assert lineSize * lines == lineSize * (lines % 0x1_0000) + lineSize * d;
    }
  }

  ghost predicate AllCarried(sent: seq<SentPage>, pages: seq<Page>)
    requires LinesNotEmpty(pages)
  {
    |sent| == |pages| && forall i | 0 <= i < |pages| :: Carries(sent[i], pages[i])
  }

  /** A page whose raster has exactly its size, and whose sizes a header can say. */
  predicate Sendable(p: Page) {
    1 <= p.lineSize <= 0xffff && 1 <= p.lines <= 0xffff && |p.raster| == RasterSize(p.lines, p.lineSize)
  }

  predicate AllSendable(pages: seq<Page>) {
    forall i | 0 <= i < |pages| :: Sendable(pages[i])
  }

  /** The whole lines of a raster that has enough of them are all of it when it has no more. */
  lemma WholeRaster(p: Page)
    requires 1 <= p.lineSize && RasterSize(p.lines, p.lineSize) <= |p.raster|
    ensures TakeLines(p.raster, p.lineSize, p.lines) == p.raster <==> |p.raster| == RasterSize(p.lines, p.lineSize)
  {
    hide RasterSize, TakeLines;
    TakeLinesIs(p.raster, p.lineSize, p.lines);
  }

  lemma AllSendableFirst(pages: seq<Page>)
    requires pages != []
    ensures AllSendable(pages) <==> Sendable(pages[0]) && AllSendable(pages[1..])
  {
    hide Sendable;
    assert pages == [pages[0]] + pages[1..];
  }

  /** A job comes back just as it was exactly when all its pages can be sent. */
  lemma {:induction false} OutcomeIsJob(pages: seq<Page>)
    requires LineSizesFit(pages)
    ensures Outcome(pages) == Ok(pages) <==> AllSendable(pages)
  {
    if pages != [] {
      hide RasterSize, TakeLines, AllSendable;
      var p, rest := pages[0], pages[1..];
      assert LineSizesFit(rest);
      OutcomeIsJob(rest);
      AllSendableFirst(pages);
      assert pages == [p] + rest;
      if 1 <= p.lines <= 0xffff && |p.raster| >= RasterSize(p.lines, p.lineSize) {
        WholeRaster(p);
        SamePages(Page(p.lineSize, p.lines, TakeLines(p.raster, p.lineSize, p.lines)), Outcome(rest), p, rest);
      }
    }
  }

  lemma SamePages(q: Page, r: Result<seq<Page>, JobError>, p: Page, rest: seq<Page>)
    ensures After([q], r) == Ok([p] + rest) <==> q == p && r == Ok(rest)
  {
    if r.Ok? && [q] + r.value == [p] + rest {
      assert q == ([q] + r.value)[0] && r.value == ([q] + r.value)[1..];
    }
  }

  /** What a job decodes to, whatever its pages, as long as their line sizes fit the header. The pages
      may have been sent in blocks of any sizes, with any packets in between that do not begin or
      end a page. */
  lemma {:induction false} JobRoundTrip(sent: seq<SentPage>, pages: seq<Page>)
    requires LineSizesFit(pages) && AllCarried(sent, pages)
    ensures DecodeJob(JobPackets(sent)) == Outcome(pages)
  {
    if pages != [] {
      JobRoundTrip(sent[1..], pages[1..]);
      hide RasterSize, DecodePage, TakeLines, EncodePage, SentPage.All, Left, VideoOf, DecodeJob;
      FirstPage(sent[0], pages[0], JobPackets(sent[1..]));
    } else {
      assert JobPackets(sent) == [];
    }
  }

  /** Only 16 bits of a line size arrive. */
  lemma WrongLineSize(s: SentPage, page: Page, tail: seq<Packet>)
    requires page.lineSize > 0xffff && Carries(s, page)
    ensures var r := DecodeJob(s.All() + tail); r.Ok? ==> r.value != [] && r.value[0].lineSize != page.lineSize
  {
    hide DecodePage, EncodePage, SentPage.All, Left, FindHeader, VideoOf;
    HeaderFound(s, tail);
  }

  /** A page comes back at the front of a job exactly when it can be sent and the rest comes back. */
  lemma OnePage(s: SentPage, page: Page, tail: seq<Packet>, rest: seq<Page>)
    requires page.lineSize >= 1 && Carries(s, page)
    ensures DecodeJob(s.All() + tail) == Ok([page] + rest) <==> Sendable(page) && DecodeJob(tail) == Ok(rest)
  {
    hide RasterSize, TakeLines, DecodeJob, SentPage.All, Carries;
    if page.lineSize > 0xffff {
      WrongLineSize(s, page, tail);
    } else {
      FirstPage(s, page, tail);
      if 1 <= page.lines <= 0xffff && |page.raster| >= RasterSize(page.lines, page.lineSize) {
        WholeRaster(page);
        var raster := TakeLines(page.raster, page.lineSize, page.lines);
        SamePages(Page(page.lineSize, page.lines, raster), DecodeJob(tail), page, rest);
      }
    }
  }

  /** The law of the whole chain, for pages of any sizes: a job comes back just as it was exactly when
      all its pages can be sent. */
  lemma {:induction false} JobComesBack(sent: seq<SentPage>, pages: seq<Page>)
    requires LinesNotEmpty(pages) && AllCarried(sent, pages)
    ensures DecodeJob(JobPackets(sent)) == Ok(pages) <==> AllSendable(pages)
  {
    if pages == [] {
      assert JobPackets(sent) == [];
    } else {
      hide DecodeJob, SentPage.All, Carries, Sendable, AllSendable;
      var rest := pages[1..];
      assert pages == [pages[0]] + rest;
      JobComesBack(sent[1..], rest);
      OnePage(sent[0], pages[0], JobPackets(sent[1..]), rest);
      AllSendableFirst(pages);
    }
  }

  // ----- what the driver sends

  lemma {:induction false} BlocksCarry(blocks: seq<Event>, video: seq<byte>, bs: nat)
    requires Blocks(blocks, video, bs)
    ensures Inner(PacketsOf(blocks)) && VideoOf(PacketsOf(blocks)) == Sent(blocks)
    decreases |blocks|
  {
    hide VideoOf, Inner, Blocks, PacketsOf;
    VideoNone();
    InnerMore([], []);
    if blocks == [] {
      PacketsNone();
    } else {
      var before, last := blocks[..|blocks| - 1], blocks[|blocks| - 1];
      var p := PacketOf(last);
      assert blocks == before + [last];
      BlocksInit(before, last, video, bs);
      BlocksCarry(before, video, bs);
      PacketsSnoc(before, last);
      InnerMore(PacketsOf(before), [p]);
      VideoAppend(PacketsOf(before), [p]);
      VideoFirst([p]);
      assert [p][1..] == [];
    }
  }

  lemma InnerMore(a: seq<Packet>, b: seq<Packet>)
    ensures Inner([])
    ensures Inner(a) && Inner(b) ==> Inner(a + b)
  {
  }

  lemma PacketsNone()
    ensures PacketsOf([]) == []
  {
  }

  lemma PacketsSnoc(es: seq<Event>, e: Event)
    ensures PacketsOf(es + [e]) == PacketsOf(es) + [PacketOf(e)]
  {
    hide PacketOf;
  }

  lemma BlocksInit(es: seq<Event>, e: Event, video: seq<byte>, bs: nat)
    requires Blocks(es + [e], video, bs)
    ensures Blocks(es, video, bs) && (e.Poll? || (e.VideoData? && e.data != [])) && Inner([PacketOf(e)])
  {
    hide TakesData;
    BlocksSnoc(es, e, video, bs);
  }

  lemma BeginDataCarries(inner: seq<Packet>)
    requires Inner(inner)
    ensures var ps := [PacketOf(BeginData)] + inner;
            Inner(ps) && VideoOf(ps) == VideoOf(inner)
  {
    hide VideoOf;
    var ps := [PacketOf(BeginData)] + inner;
    VideoFirst(ps);
    assert ps[1..] == inner;
  }

  lemma AllIs(before: seq<Event>, params: PageParams, blocks: seq<Event>)
    ensures PacketsOf(before + ([BeginPage(params), BeginData] + blocks + [EndPage])) ==
            SentPage(PacketsOf(before), params, [PacketOf(BeginData)] + PacketsOf(blocks)).All()
  {
    hide BeginPagePayload;
  }

  /** A complete transmission of a page's stream carries the page. */
  lemma TransmissionCarries(before: seq<Event>, es: seq<Event>, params: PageParams, page: Page, bs: nat)
    returns (s: SentPage)
    requires page.lineSize >= 1
    requires params.imageLineSize == page.lineSize % 0x1_0000 && params.imageLines == page.lines % 0x1_0000
    requires Transmission(es, params, EncodePage(page.raster, page.lineSize, page.lines), bs, true)
    requires forall i | 0 <= i < |before| :: before[i].AskInfo? || before[i].Poll?
    ensures Carries(s, page) && PacketsOf(before + es) == s.All()
  {
    hide EncodePage, BeginPagePayload, Blocks, VideoOf, Sent, Inner, SentPage.All;
    var blocks, video := es[2..|es| - 1], EncodePage(page.raster, page.lineSize, page.lines);
    BlocksCarry(blocks, video, bs);
    var inner := PacketsOf(blocks);
    BeginDataCarries(inner);
    s := SentPage(PacketsOf(before), params, [PacketOf(BeginData)] + inner);
    assert es == [BeginPage(params), BeginData] + blocks + [EndPage];
    AllIs(before, params, blocks);
    assert before + es == before + ([BeginPage(params), BeginData] + blocks + [EndPage]);
  }

  /** The messages of a job. */
  function AllEvents(sends: seq<seq<Event>>): seq<Event> {
    if sends == [] then [] else sends[0] + AllEvents(sends[1..])
  }

  ghost predicate PageSent(es: seq<Event>, params: PageParams, page: Page, bs: nat)
    requires page.lineSize >= 1
  {
    && params.imageLineSize == page.lineSize % 0x1_0000 && params.imageLines == page.lines % 0x1_0000
    && exists k: nat ::
        k <= |es| && (forall i | 0 <= i < k :: es[i].AskInfo? || es[i].Poll?) &&
        Transmission(es[k..], params, EncodePage(page.raster, page.lineSize, page.lines), bs, true)
  }

  /** A job the driver sent page by page, in whatever blocks, decodes to its pages exactly when they
      can be sent. */
  lemma {:induction false} SentJobDecodes(sends: seq<seq<Event>>, params: seq<PageParams>, pages: seq<Page>, bs: nat)
    returns (sent: seq<SentPage>)
    requires LinesNotEmpty(pages) && |sends| == |params| == |pages|
    requires forall i | 0 <= i < |pages| :: PageSent(sends[i], params[i], pages[i], bs)
    ensures AllCarried(sent, pages) && JobPackets(sent) == PacketsOf(AllEvents(sends))
    ensures DecodeJob(PacketsOf(AllEvents(sends))) == Ok(pages) <==> AllSendable(pages)
    ensures LineSizesFit(pages) ==> DecodeJob(PacketsOf(AllEvents(sends))) == Outcome(pages)
  {
    hide EncodePage, Transmission, Carries, SentPage.All, DecodeJob, Outcome, AllSendable;
    sent := [];
    if pages != [] {
      var es := sends[0];
      var page := pages[0];
      assert PageSent(es, params[0], page, bs);
      var k: nat :| k <= |es| && (forall i | 0 <= i < k :: es[i].AskInfo? || es[i].Poll?) &&
        Transmission(es[k..], params[0], EncodePage(page.raster, page.lineSize, page.lines), bs, true);
      var first := TransmissionCarries(es[..k], es[k..], params[0], page, bs);
      assert es[..k] + es[k..] == es;
      var more := SentJobDecodes(sends[1..], params[1..], pages[1..], bs);
      sent := [first] + more;
      assert sent[1..] == more;
      assert PacketsOf(es + AllEvents(sends[1..])) == PacketsOf(es) + PacketsOf(AllEvents(sends[1..]));
    }
    JobComesBack(sent, pages);
    if LineSizesFit(pages) {
      JobRoundTrip(sent, pages);
    }
  }
}
