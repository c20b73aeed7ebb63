/** The compressor and the decoder of the repository's tests, as programs. */
module JobRun {
  import opened Bytes
  import opened Streams
  import opened Packets
  import opened BufferedPages
  import opened Transmissions
  import opened Depacketising
  import opened VideoDataStreambufs
  import opened Decoder
  import opened DecoderStreambufs
  import opened Encoder
  import opened ScoaStreambufs
  import opened Codec
  import opened Jobs

  const MAX_SIZE: nat := 4096

  /** What a page's header in the job file says. */
  datatype PageSize = PageSize(lineSize: nat, lines: nat)

  /** The pages of a job whose rasters follow each other in one source. */
  function PagesFrom(src: seq<byte>, sizes: seq<PageSize>): seq<Page>
    decreases |sizes|
  {
    if sizes == [] then []
    else
      var PageSize(lineSize, lines) := sizes[0];
      [Page(lineSize, lines, PageRaster(src, lineSize, lines))]
      + PagesFrom(SourceLeft(src, lineSize, lines), sizes[1..])
  }

  /** What is left of the source after them. */
  function LeftAfter(src: seq<byte>, sizes: seq<PageSize>): seq<byte>
    decreases |sizes|
  {
    if sizes == [] then src else LeftAfter(SourceLeft(src, sizes[0].lineSize, sizes[0].lines), sizes[1..])
  }

  function Rasters(pages: seq<Page>): seq<byte> {
    if pages == [] then [] else pages[0].raster + Rasters(pages[1..])
  }

  function SizesOf(pages: seq<Page>): (sizes: seq<PageSize>)
    ensures |sizes| == |pages|
  {
    if pages == [] then [] else [PageSize(pages[0].lineSize, pages[0].lines)] + SizesOf(pages[1..])
  }

  /** Pages with their full rasters, one after the other, are found again, and what follows is left. */
  lemma {:induction false} PagesFromRasters(pages: seq<Page>, tail: seq<byte>)
    requires forall i | 0 <= i < |pages| ::
               pages[i].lineSize >= 1 && |pages[i].raster| == RasterSize(pages[i].lines, pages[i].lineSize)
    ensures PagesFrom(Rasters(pages) + tail, SizesOf(pages)) == pages
    ensures LeftAfter(Rasters(pages) + tail, SizesOf(pages)) == tail
  {
    hide RasterSize, SourceLeft;
    if pages == [] {
      assert Rasters(pages) + tail == tail;
    } else {
      var p, rest := pages[0], Rasters(pages[1..]) + tail;
      Assoc(p.raster, Rasters(pages[1..]), tail);
      var src := p.raster + rest;
      SourceLeftIs(src, p.lineSize, p.lines);
      assert src[..|p.raster|] == p.raster && src[|p.raster|..] == rest;
      PagesFromRasters(pages[1..], tail);
      assert SizesOf(pages)[1..] == SizesOf(pages[1..]);
      assert pages == [p] + pages[1..];
    }
  }

  /** The video packets are full, but for the last. */
  predicate InBlocks(ps: seq<Packet>, size: nat) {
    forall i | 0 <= i < |ps| && ps[i].opcode == IC_VIDEO_DATA ::
      1 <= |ps[i].payload| <= size && (i < |ps| - 1 ==> |ps[i].payload| == size)
  }

  /** The loop over the pages of tests/Compression/compressor.cpp: one encoder for all of them, reset for
      each onto the one source that holds their rasters in a row. */
  method Compress(source: ByteStream, sizes: seq<PageSize>, defaults: PageParams)
    returns (out: ByteVector, ghost sent: seq<SentPage>)
    requires source.Valid() && forall i | 0 <= i < |sizes| :: sizes[i].lineSize >= 1
    modifies source
    ensures fresh(out) && source.Valid() && source.Rest() == LeftAfter(old(source.Rest()), sizes)
    ensures var pages := PagesFrom(old(source.Rest()), sizes);
            && |sent| == |pages| == |sizes|
            && forall i | 0 <= i < |pages| ::
                 pages[i].lineSize >= 1 && Carries(sent[i], pages[i]) && InBlocks(sent[i].inner, 4096)
    ensures var ps := JobPackets(sent); AllWritable(ps) && NoEmptyBlocks(ps) && out.bytes == Frames(ps)
  {
    hide Carries, Frames, AllWritable, NoEmptyBlocks, SentPage.All, InBlocks, SourceLeft;
    out := new ByteVector();
    sent := [];
    var encoder := new ScoaStreambuf();
    NothingSent();
    ghost var pages := PagesFrom(source.Rest(), sizes);
    PagesCount(source.Rest(), sizes);
    assert sizes[0..] == sizes && pages[0..] == pages;
    for i := 0 to |sizes|
      invariant fresh(out) && fresh(encoder) && fresh(encoder.buffer) && encoder.buffer != out && source.Valid()
      invariant encoder.gptr == encoder.egptr && |sent| == i
      invariant pages[i..] == PagesFrom(source.Rest(), sizes[i..])
      invariant LeftAfter(old(source.Rest()), sizes) == LeftAfter(source.Rest(), sizes[i..])
      invariant forall j | 0 <= j < i ::
                  pages[j].lineSize >= 1 && Carries(sent[j], pages[j]) && InBlocks(sent[j].inner, 4096)
      invariant var ps := JobPackets(sent); AllWritable(ps) && NoEmptyBlocks(ps) && out.bytes == Frames(ps)
    {
      ghost var before, page := JobPackets(sent), pages[i];
      assert sizes[i..][1..] == sizes[i + 1..] && pages[i..][0] == page && pages[i..][1..] == pages[i + 1..];
      ghost var s := CompressPage(encoder, source, out, sizes[i], page, defaults);
      JobSnoc(sent, s);
      FramesAppend(before, s.All());
      NoEmptyAppend(before, s.All());
      sent := sent + [s];
    }
  }

  lemma {:induction false} PagesCount(src: seq<byte>, sizes: seq<PageSize>)
    ensures |PagesFrom(src, sizes)| == |sizes|
    ensures forall i | 0 <= i < |sizes| ::
              PagesFrom(src, sizes)[i].lineSize == sizes[i].lineSize && PagesFrom(src, sizes)[i].lines == sizes[i].lines
    decreases |sizes|
  {
    if sizes != [] {
      PagesCount(SourceLeft(src, sizes[0].lineSize, sizes[0].lines), sizes[1..]);
    }
  }

  lemma NothingSent()
    ensures JobPackets([]) == [] && AllWritable([]) && NoEmptyBlocks([]) && Frames([]) == []
  {
  }

  lemma {:induction false} JobSnoc(sent: seq<SentPage>, s: SentPage)
    ensures JobPackets(sent + [s]) == JobPackets(sent) + s.All()
  {
    hide SentPage.All;
    if sent == [] {
      assert JobPackets([s]) == s.All() + JobPackets([s][1..]);
    } else {
      assert (sent + [s])[0] == sent[0] && (sent + [s])[1..] == sent[1..] + [s];
      JobSnoc(sent[1..], s);
    }
  }

  lemma NoEmptyAppend(a: seq<Packet>, b: seq<Packet>)
    requires NoEmptyBlocks(a) && NoEmptyBlocks(b)
    ensures NoEmptyBlocks(a + b)
  {
  }

  /** Writes one packet after those written since the stream was `start`. */
  method Put(out: ByteVector, p: Packet, ghost start: seq<byte>, ghost ps: seq<Packet>)
    requires Writable(p) && AllWritable(ps) && out.bytes == start + Frames(ps)
    modifies out
    ensures AllWritable(ps + [p]) && out.bytes == start + Frames(ps + [p])
  {
    hide Frames, Frame, AllWritable;
    FramesOne(p);
    FramesAppend(ps, [p]);
    var r := WriteTo(out, p.opcode, p.payload);
    Assoc(start, Frames(ps), Frame(p));
  }

  /** One page: its header, its stream in blocks of up to 4096 bytes, and its end. The source is left
      where the page ends in it. */
  method CompressPage(encoder: ScoaStreambuf, source: ByteStream, out: ByteVector, size: PageSize, ghost page: Page,
                      defaults: PageParams)
    returns (ghost s: SentPage)
    requires source.Valid() && size.lineSize >= 1 && encoder.gptr == encoder.egptr && encoder.buffer != out
    requires page == Page(size.lineSize, size.lines, PageRaster(source.Rest(), size.lineSize, size.lines))
    modifies encoder, encoder.buffer, source, out
    ensures encoder.gptr == encoder.egptr
    ensures source.Valid() && source.Rest() == SourceLeft(old(source.Rest()), size.lineSize, size.lines)
    ensures Carries(s, page) && InBlocks(s.inner, 4096) && AllWritable(s.All()) && NoEmptyBlocks(s.All())
    ensures out.bytes == old(out.bytes) + Frames(s.All())
  {
    hide Frames, Frame, Encode, AllWritable, VideoOf, Inner, Carries, EncodePage, BeginPagePayload, PageRaster;
    hide NoEmptyBlocks, SentPage.All, InBlocks, SourceLeft;
    ghost var src := source.Rest();
    encoder.Reset(source, size.lineSize, size.lines);
    PageStream(src, size.lineSize, size.lines);
    var pp := defaults.(imageLineSize := size.lineSize % 0x1_0000, imageLines := size.lines % 0x1_0000);
    ghost var start := out.bytes;
    NothingSent();
    var header := Packet(IC_BEGIN_PAGE, BeginPagePayload(pp));
    Put(out, header, start, []);
    ghost var head := [header];
    assert [] + head == head;
    ghost var inner := CompressVideo(encoder, out, start, head);
    Put(out, EndPacket(), start, head + inner);
    s := SentPage([], pp, inner);
    PageCarried(s, page);
    AllInOrder(s);
  }

  lemma PageStream(src: seq<byte>, lineSize: nat, lines: nat)
    requires lineSize >= 1
    ensures EncodePage(src, lineSize, lines) == EncodePage(PageRaster(src, lineSize, lines), lineSize, lines)
  {
    hide Encode, PageRaster;
    EncodePrefix(src, lineSize, lines, [], 0);
  }

  /** From IC_BEGIN_DATA to the last block. */
  method CompressVideo(encoder: ScoaStreambuf, out: ByteVector, ghost start: seq<byte>, ghost head: seq<Packet>)
    returns (ghost inner: seq<Packet>)
    requires encoder.Valid() && encoder.buffer != out && AllWritable(head) && out.bytes == start + Frames(head)
    modifies encoder, encoder.rasterStream, encoder.buffer, out
    ensures encoder.Valid() && encoder.gptr == encoder.egptr && encoder.rasterStream == old(encoder.rasterStream)
    ensures encoder.rasterStream.Rest() == old(encoder.SourceAfter())
    ensures Inner(inner) && VideoOf(inner) == old(encoder.Pending()) && InBlocks(inner, MAX_SIZE)
    ensures AllWritable(head + inner) && out.bytes == start + Frames(head + inner)
  {
    hide Frames, Frame, Encode, AllWritable, VideoOf, Inner, InBlocks, SourceLeft;
    Put(out, Packet(IC_BEGIN_DATA, []), start, head);
    inner := [Packet(IC_BEGIN_DATA, [])];
    BeginDataOnly();
    while true
      invariant encoder.Valid() && encoder.rasterStream == old(encoder.rasterStream)
      invariant encoder.SourceAfter() == old(encoder.SourceAfter())
      invariant Inner(inner) && VideoOf(inner) + encoder.Pending() == old(encoder.Pending())
      invariant InBlocks(inner, MAX_SIZE) && (AllFull(inner, MAX_SIZE) || encoder.Pending() == [])
      invariant AllWritable(head + inner) && out.bytes == start + Frames(head + inner)
      decreases |encoder.Pending()|
    {
      ghost var before := encoder.Pending();
      var block := encoder.Sgetn(MAX_SIZE);
      if block == [] {
        break;
      }
      var p := Packet(IC_VIDEO_DATA, block);
      Put(out, p, start, head + inner);
      TakeDrop(before, |block|);
      Assoc(VideoOf(inner), block, encoder.Pending());
      BlockMore(inner, p);
      BlockFull(inner, p, MAX_SIZE);
      Assoc(head, inner, [p]);
      inner := inner + [p];
    }
  }

  /** Every video packet is full. */
  predicate AllFull(ps: seq<Packet>, size: nat) {
    forall i | 0 <= i < |ps| && ps[i].opcode == IC_VIDEO_DATA :: |ps[i].payload| == size
  }

  lemma BlockFull(ps: seq<Packet>, p: Packet, size: nat)
    requires AllFull(ps, size) && size >= 1 && 1 <= |p.payload| <= size
    ensures InBlocks(ps + [p], size) && (|p.payload| == size ==> AllFull(ps + [p], size))
  {
  }

  lemma BeginDataOnly()
    ensures Inner([Packet(IC_BEGIN_DATA, [])]) && VideoOf([Packet(IC_BEGIN_DATA, [])]) == []
    ensures InBlocks([Packet(IC_BEGIN_DATA, [])], MAX_SIZE) && AllFull([Packet(IC_BEGIN_DATA, [])], MAX_SIZE)
  {
    VideoFirst([Packet(IC_BEGIN_DATA, [])]);
    VideoNone();
  }

  lemma BlockMore(inner: seq<Packet>, p: Packet)
    requires Inner(inner) && p.opcode == IC_VIDEO_DATA && p.payload != []
    ensures Inner(inner + [p]) && VideoOf(inner + [p]) == VideoOf(inner) + p.payload
  {
    hide VideoOf;
    VideoAppend(inner, [p]);
    VideoFirst([p]);
    assert [p][1..] == [];
    VideoNone();
  }

  lemma AllInOrder(s: SentPage)
    requires s.before == []
    ensures s.All() == [s.Header()] + s.inner + [EndPacket()]
  {
    hide BeginPagePayload;
  }

  lemma PageCarried(s: SentPage, page: Page)
    requires page.lineSize >= 1 && s.before == [] && Inner(s.inner)
    requires s.params.imageLineSize == page.lineSize % 0x1_0000 && s.params.imageLines == page.lines % 0x1_0000
    requires VideoOf(s.inner) == EncodePage(page.raster, page.lineSize, page.lines)
    ensures Carries(s, page) && NoEmptyBlocks(s.All())
  {
    hide VideoOf, BeginPagePayload;
  }

  /** Everything the reader would deliver for the page at `ps`, found on a copy of the stream. */
  method LookAhead(data: seq<byte>, lineSize: nat, lines: nat, ghost ps: seq<Packet>) returns (video: seq<byte>)
    requires AllWritable(ps) && NoEmptyBlocks(ps) && data == Frames(ps) && lineSize != 0 && lines != 0
    ensures video == VideoOf(ps)
  {
    hide Frames, NoEmptyBlocks, VideoOf, Left, Fetched, VideoDataStreambuf.Reached, VideoDataStreambuf.Pending;
    var stream := new ByteStream(data);
    var reader := new VideoDataStreambuf(stream, ps);
    reader.lineSize, reader.linesCount := lineSize, lines;
    VideoInFrames(ps);
    reader.AtStart();
    video := reader.Sgetn(|data|, ps, 0);
    assert VideoOf(ps)[0..] == VideoOf(ps);
  }

  lemma {:induction false} VideoInFrames(ps: seq<Packet>)
    requires AllWritable(ps)
    ensures |VideoOf(ps)| <= |Frames(ps)|
  {
    if ps != [] {
      VideoInFrames(ps[1..]);
      if !EndsVideo(ps[0]) {
        VideoFirst(ps);
      }
    }
  }

  /** One read of the loop that decodes a page. What the decoder takes, the reader delivers. */
  method ReadLine(reader: VideoDataStreambuf, decoder: DecoderStreambuf, ghost ps: seq<Packet>,
                  ghost all: PageOutcome, ghost raster: seq<byte>)
    returns (line: Result<seq<byte>, DecodeError>)
    requires reader.Valid() && reader.stream.good && reader.lineSize != 0 && reader.linesCount != 0
    requires decoder.Valid() && decoder.gptr == decoder.egptr && decoder.stream != reader.stream
    requires decoder.stream.data == VideoOf(ps) && reader.Reached(ps, decoder.stream.pos)
    requires var left := decoder.Pending(); all == PageOutcome(raster + left.raster, left.ending, left.rest)
    modifies reader`buffer, reader`gptr, reader`egptr, reader`ps, reader.stream, decoder, decoder.stream`pos
    ensures reader.Valid() && decoder.Valid()
    ensures match line
            case Err(e) => all.ending == Thrown(e)
            case Ok(s) =>
              && reader.stream.good && reader.Reached(ps, decoder.stream.pos)
              && if s == [] then all == PageOutcome(raster, CleanEof, decoder.stream.Rest())
                 else
                   var left := decoder.Pending();
                   && all == PageOutcome(raster + s + left.raster, left.ending, left.rest)
                   && decoder.gptr == decoder.egptr && |left.raster| < |old(decoder.Pending()).raster|
  {
    hide DecodePage, Frames, NoEmptyBlocks, VideoOf, Left, Fetched, DecoderStreambuf.Pending;
    hide VideoDataStreambuf.Pending, VideoDataStreambuf.Reached, VideoDataStreambuf.Shows;
    decoder.WholeLines();
    ghost var left := decoder.Pending();
    var from := decoder.stream.pos;
    line := decoder.Sgetn(decoder.lineSize);
    if line.Ok? {
      var bytes := reader.Sgetn(decoder.stream.pos - from, ps, from);
      assert bytes == decoder.stream.data[from..decoder.stream.pos];
      if line.value != [] {
        assert left.raster == line.value + decoder.Pending().raster;
        Assoc(raster, line.value, decoder.Pending().raster);
      } else {
        assert raster + [] == raster;
      }
    }
  }

  /** The loop that decodes one page, with the check of its size. What the decoder will want is
      known as `video`; read by read, the reader delivers exactly the bytes that the decoder takes. */
  method DecodeVideo(reader: VideoDataStreambuf, video: seq<byte>, ghost ps: seq<Packet>)
    returns (page: Result<Page, JobError>)
    requires reader.Valid() && reader.stream.good && reader.lineSize != 0 && reader.linesCount != 0
    requires reader.Reached(ps, 0) && video == VideoOf(ps)
    modifies reader`buffer, reader`gptr, reader`egptr, reader`ps, reader.stream
    ensures reader.Valid() && page == Decoded(video, reader.lineSize, reader.linesCount).0
    ensures page.Ok? ==>
              reader.stream.good && reader.ps == Left(ps, Decoded(video, reader.lineSize, reader.linesCount).1)
  {
    hide DecodePage, Frames, NoEmptyBlocks, VideoOf, Left, VideoDataStreambuf.Shows, VideoDataStreambuf.Pending;
    var source := new ByteStream(video);
    var decoder := new DecoderStreambuf(source, reader.lineSize);
    decoder.WholeLines();
    hide DecoderStreambuf.Pending;
    ghost var all := decoder.Pending();
    var raster: seq<byte> := [];
    assert all.raster == [] + all.raster;
    while true
      invariant fresh(source) && fresh(decoder) && decoder.stream == source && source.data == video
      invariant decoder.Valid() && decoder.gptr == decoder.egptr
      invariant var left := decoder.Pending(); all == PageOutcome(raster + left.raster, left.ending, left.rest)
      invariant reader.Valid() && reader.stream.good && reader.Reached(ps, source.pos)
      decreases |decoder.Pending().raster|
    {
      var line := ReadLine(reader, decoder, ps, all, raster);
      if line.Err? {
        return Err(Undecodable(line.error));
      }
      if line.value == [] {
        break;
      }
      raster := raster + line.value;
    }
    page := if |raster| != reader.lineSize * reader.linesCount then Err(SizeMismatch)
    else Ok(Page(reader.lineSize, reader.linesCount, raster));
  }

  /** One turn of the main loop of tests/Compression/decoder.cpp. The packets gone after it are those
      that it took to deliver what the decoder read. */
  method ReadPage(stream: ByteStream, ghost ps: seq<Packet>)
    returns (page: Result<Option<Page>, JobError>, ghost rest: seq<Packet>)
    requires stream.Valid() && stream.good && AllWritable(ps) && NoEmptyBlocks(ps) && stream.Rest() == Frames(ps)
    modifies stream
    ensures match DecodeOne(ps)
            case PageFailed(e) => page == Err(e)
            case JobEnd => page == Ok(None)
            case PageRead(p, rest') =>
              && page == Ok(Some(p)) && rest == rest' && AllWritable(rest) && NoEmptyBlocks(rest)
              && stream.Valid() && stream.good && stream.Rest() == Frames(rest)
  {
    hide Frames, NoEmptyBlocks, AllWritable, VideoOf, FindHeader, Decoded, Left, Fetched;
    var reader := new VideoDataStreambuf(stream, ps);
    rest := ps;
    var found :- reader.ReadHeader();
    rest := reader.ps;
    DecodeOneIs(ps);
    if !found {
      return Ok(None), rest;
    }
    if reader.lineSize == 0 {
      return Ok(Some(Page(0, reader.linesCount, []))), rest;
    }
    if reader.linesCount == 0 {
      return Err(NoLines), rest;
    }
    var video := LookAhead(stream.data[stream.pos..], reader.lineSize, reader.linesCount, rest);
    reader.AtStart();
    var decoded := DecodeVideo(reader, video, rest);
    if decoded.Err? {
      return Err(decoded.error), rest;
    }
    rest := reader.ps;
    return Ok(Some(decoded.value)), rest;
  }

  lemma DecodeOneIs(ps: seq<Packet>)
    ensures DecodeOne(ps) ==
            match FindHeader(ps)
            case NoPage => JobEnd
            case ShortHeader => PageFailed(InvalidPacketSize)
            case PageHeader(lineSize, lines, rest) =>
              if lineSize == 0 then PageRead(Page(lineSize, lines, []), rest)
              else if lines == 0 then PageFailed(NoLines)
              else
                var (page, used) := Decoded(VideoOf(rest), lineSize, lines);
                if page.Err? then PageFailed(page.error) else PageRead(page.value, Left(rest, used))
  {
    hide VideoOf, FindHeader, DecodePage, Left;
  }

  method DecodePages(data: seq<byte>, ghost all: seq<Packet>) returns (r: Result<seq<Page>, JobError>)
    requires AllWritable(all) && NoEmptyBlocks(all) && data == Frames(all)
    ensures r == DecodeJob(all)
  {
    hide Frames, NoEmptyBlocks, AllWritable, DecodeOne;
    var stream := new ByteStream(data);
    var pages: seq<Page> := [];
    ghost var ps := all;
    assert DecodeJob(all).Ok? ==> pages + DecodeJob(all).value == DecodeJob(all).value;
    while true
      invariant fresh(stream) && stream.Valid() && stream.good
      invariant AllWritable(ps) && NoEmptyBlocks(ps) && stream.Rest() == Frames(ps)
      invariant DecodeJob(all) == After(pages, DecodeJob(ps))
      decreases |ps|
    {
      var page, rest := ReadPage(stream, ps);
      AfterPage(pages, ps);
      if page.Err? {
        return Err(page.error);
      }
      if page.value == None {
        return Ok(pages);
      }
      pages := pages + [page.value.value];
      ps := rest;
    }
  }

  lemma AfterPage(pages: seq<Page>, ps: seq<Packet>)
    ensures After(pages, DecodeJob(ps)) ==
            match DecodeOne(ps)
            case JobEnd => Ok(pages)
            case PageFailed(e) => Err(e)
            case PageRead(page, rest) => After(pages + [page], DecodeJob(rest))
  {
    hide DecodeOne;
    var r := DecodeOne(ps);
    assert pages + [] == pages;
    if r.PageRead? && DecodeJob(r.rest).Ok? {
      Assoc(pages, [r.page], DecodeJob(r.rest).value);
    }
  }

  /** Compressing a job and decoding the file it gives: it comes back exactly when all its pages can be
      sent. */
  method CompressAndDecode(rasters: seq<byte>, sizes: seq<PageSize>, defaults: PageParams)
    returns (r: Result<seq<Page>, JobError>)
    requires forall i | 0 <= i < |sizes| :: sizes[i].lineSize >= 1
    ensures var pages := PagesFrom(rasters, sizes);
            && (LineSizesFit(pages) ==> r == Outcome(pages))
            && (r == Ok(pages) <==> AllSendable(pages))
  {
    hide Carries, Frames, NoEmptyBlocks, AllWritable, DecodeJob, Outcome, AllSendable;
    var source := new ByteStream(rasters);
    ghost var pages := PagesFrom(rasters, sizes);
    var out, sent := Compress(source, sizes, defaults);
    r := DecodePages(out.bytes, JobPackets(sent));
    JobComesBack(sent, pages);
    if LineSizesFit(pages) {
      JobRoundTrip(sent, pages);
    }
  }
}
