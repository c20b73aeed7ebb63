/** Taking the video stream of each page out of the packets of a job
    (tests/Compression/decoder.cpp). */
module Depacketising {
  import opened Bytes
  import opened Packets
  import opened Transmissions
  import opened Decoder

  predicate EndsVideo(p: Packet) {
    p.opcode == 3 || p.opcode == IC_END_PAGE
  }

  /** The next block of video data, and the packets left after it. */
  datatype Found = Block(data: seq<byte>, rest: seq<Packet>) | NoBlock(rest: seq<Packet>)

  function NextBlock(ps: seq<Packet>): (f: Found)
    ensures |f.rest| <= |ps| && (f.Block? ==> |f.rest| < |ps|)
    ensures AllWritable(ps) ==> AllWritable(f.rest)
    ensures NoEmptyBlocks(ps) ==> NoEmptyBlocks(f.rest) && (f.Block? ==> f.data != [])
  {
    if ps == [] then NoBlock([])
    else if EndsVideo(ps[0]) then NoBlock(ps[1..])
    else if ps[0].opcode == IC_VIDEO_DATA then Block(ps[0].payload, ps[1..])
    else NextBlock(ps[1..])
  }

  /** A block without data makes the reader look past its buffer; nothing sends one. */
  predicate NoEmptyBlocks(ps: seq<Packet>) {
    forall i | 0 <= i < |ps| :: ps[i].opcode == IC_VIDEO_DATA ==> ps[i].payload != []
  }

  /** Everything the reader delivers before its end-of-file. */
  function VideoOf(ps: seq<Packet>): seq<byte>
    decreases |ps|
  {
    match NextBlock(ps)
    case Block(data, rest) => data + VideoOf(rest)
    case NoBlock(_) => []
  }

  /** The packets not yet read when `k` bytes have been asked for and delivered. */
  function Left(ps: seq<Packet>, k: nat): (rest: seq<Packet>)
    ensures |rest| <= |ps| && (NoEmptyBlocks(ps) ==> NoEmptyBlocks(rest))
    decreases |ps|
  {
    if k == 0 then ps
    else
      match NextBlock(ps)
      case Block(data, rest) => if |data| >= k then rest else Left(rest, k - |data|)
      case NoBlock(rest) => rest
  }

  lemma LeftNothing(ps: seq<Packet>)
    ensures Left(ps, 0) == ps
  {
  }

  /** Reading `ps0` block by block, `f` bytes in whole blocks, leads to `ps`. */
  ghost predicate Fetched(ps0: seq<Packet>, ps: seq<Packet>, f: nat)
    decreases |ps0|
  {
    || (f == 0 && ps == ps0)
    || match NextBlock(ps0)
       case Block(data, rest) => f >= |data| && Fetched(rest, ps, f - |data|)
       case NoBlock(_) => false
  }

  lemma {:induction false} FetchedMore(ps0: seq<Packet>, ps: seq<Packet>, f: nat)
    requires Fetched(ps0, ps, f) && NextBlock(ps).Block? && NoEmptyBlocks(ps0)
    ensures var Block(data, rest) := NextBlock(ps);
            && Fetched(ps0, rest, f + |data|)
            && forall m: nat | f < m <= f + |data| :: Left(ps0, m) == rest
    decreases |ps0|
  {
    var Block(data, rest) := NextBlock(ps);
    if f == 0 && ps == ps0 {
      assert Fetched(rest, rest, 0);
    } else {
      var first := NextBlock(ps0);
      FetchedMore(first.rest, ps, f - |first.data|);
      forall m: nat | f < m <= f + |data| ensures Left(ps0, m) == rest {
        assert Left(first.rest, m - |first.data|) == rest;
      }
    }
  }

  datatype FoundHeader = PageHeader(lineSize: nat, lines: nat, rest: seq<Packet>) | NoPage | ShortHeader

  /** The next page's header, and the packets after it. */
  function FindHeader(ps: seq<Packet>): (f: FoundHeader)
    ensures f.PageHeader? ==> |f.rest| < |ps| && (NoEmptyBlocks(ps) ==> NoEmptyBlocks(f.rest))
  {
    if ps == [] then NoPage
    else if ps[0].opcode != IC_BEGIN_PAGE then FindHeader(ps[1..])
    else
      var p := ps[0].payload;
      if |p| < 33 then ShortHeader
      else PageHeader(Wide(p[27], p[26]), Wide(p[29], p[28]), ps[1..])
  }

  function Wide(high: nat, low: nat): nat {
    256 * high + low
  }

  datatype Page = Page(lineSize: nat, lines: nat, raster: seq<byte>)

  datatype JobError = InvalidPacketSize | NoLines | Undecodable(error: DecodeError) | SizeMismatch

  datatype PageRead = PageRead(page: Page, rest: seq<Packet>) | JobEnd | PageFailed(error: JobError)

  /** One turn of the test decoder's main loop: the next page, decoded from the packets after its
      header, with the size check. The reader is left where its last block ended. Of a page with
      an empty line nothing is read; one with no lines fails an assertion (`NoLines`). */
  function DecodeOne(ps: seq<Packet>): (r: PageRead)
    ensures r.PageRead? ==> |r.rest| < |ps|
  {
    match FindHeader(ps)
    case NoPage => JobEnd
    case ShortHeader => PageFailed(InvalidPacketSize)
    case PageHeader(lineSize, lines, rest) =>
      if lineSize == 0 then PageRead(Page(lineSize, lines, []), rest)
      else if lines == 0 then PageFailed(NoLines)
      else
        var (page, used) := Decoded(VideoOf(rest), lineSize, lines);
        if page.Err? then PageFailed(page.error) else PageRead(page.value, Left(rest, used))
  }

  /** The page a video stream decodes to, and how much of the stream that takes. */
  function Decoded(video: seq<byte>, lineSize: nat, lines: nat): (Result<Page, JobError>, nat)
    requires lineSize != 0
  {
    var page := DecodePage(video, [], lineSize, 0);
    var used := if |page.rest| <= |video| then |video| - |page.rest| else 0;
    if page.ending.Thrown? then (Err(Undecodable(page.ending.error)), used)
    else if |page.raster| != lineSize * lines then (Err(SizeMismatch), used)
    else (Ok(Page(lineSize, lines, page.raster)), used)
  }

  function After(pages: seq<Page>, r: Result<seq<Page>, JobError>): Result<seq<Page>, JobError> {
    if r.Err? then r else Ok(pages + r.value)
  }

  /** The test decoder, page after page. */
  function DecodeJob(ps: seq<Packet>): Result<seq<Page>, JobError>
    decreases |ps|
  {
    match DecodeOne(ps)
    case JobEnd => Ok([])
    case PageFailed(e) => Err(e)
    case PageRead(page, rest) => After([page], DecodeJob(rest))
  }
}

module VideoDataStreambufs {
  import opened Bytes
  import opened Streams
  import opened Packets
  import opened Transmissions
  import opened Depacketising

  /** What `underflow` shows: a byte, the end, or, past an empty buffer, anything at all. */
  datatype Shown = Byte(b: byte) | EndOfFile | PastBuffer

  class VideoDataStreambuf {
    const stream: ByteStream
    var buffer: seq<byte>
    var gptr: nat
    var egptr: nat
    var lineSize: nat
    var linesCount: nat
    // for the specification: the packets not yet read
    ghost var ps: seq<Packet>

    ghost predicate Valid()
      reads this, stream
    {
      && stream.Valid() && gptr <= egptr <= |buffer| && AllWritable(ps)
      && (stream.good ==> stream.Rest() == Frames(ps))
    }

    /** What is still to be delivered for this page. */
    ghost function Pending(): seq<byte>
      reads this
      requires gptr <= egptr <= |buffer|
    {
      buffer[gptr..egptr] + VideoOf(ps)
    }

    /** Of the page at `ps0`, `asked` bytes have been delivered, and no packet has been read but
        those it takes to deliver one byte more. */
    ghost predicate Shows(ps0: seq<Packet>, asked: nat)
      reads this
      requires gptr <= egptr <= |buffer|
    {
      && NoEmptyBlocks(ps0) && Fetched(ps0, ps, asked + (egptr - gptr))
      && (forall m: nat | asked < m <= asked + (egptr - gptr) :: Left(ps0, m) == ps)
      && asked <= |VideoOf(ps0)| && Pending() == VideoOf(ps0)[asked..]
    }

    /** The same, and only those packets have been read that it took to deliver the bytes. */
    ghost predicate Reached(ps0: seq<Packet>, asked: nat)
      reads this
      requires gptr <= egptr <= |buffer|
    {
      Shows(ps0, asked) && Left(ps0, asked) == ps
    }

    /** With nothing in the get area, the reader is at the start of a page's packets. */
    lemma AtStart()
      requires Valid() && gptr == egptr && NoEmptyBlocks(ps)
      ensures Reached(ps, 0)
    {
      hide Frames, VideoOf;
      LeftNothing(ps);
    }

    constructor (stream: ByteStream, ghost ps: seq<Packet>)
      requires stream.Valid() && AllWritable(ps) && (stream.good ==> stream.Rest() == Frames(ps))
      ensures Valid() && this.stream == stream && this.ps == ps && gptr == egptr
    {
      this.stream, this.ps := stream, ps;
      buffer, gptr, egptr, lineSize, linesCount := [], 0, 0, 0, 0;
    }

    /** Reads on to the header of the next page. */
    method ReadHeader() returns (r: Result<bool, JobError>)
      requires Valid()
      modifies this, stream
      ensures Valid()
      ensures !old(stream.good) ==> r == Ok(false)
      ensures old(stream.good) ==>
                match FindHeader(old(ps))
                case NoPage => r == Ok(false) && !stream.good
                case ShortHeader => r == Err(InvalidPacketSize)
                case PageHeader(size, lines, rest) =>
                  r == Ok(true) && stream.good && lineSize == size && linesCount == lines && ps == rest
      ensures gptr == old(gptr) && egptr == old(egptr) && buffer == old(buffer)
    {
      hide Frames, Frame;
      var packet := new StreamPacket();
      if !stream.good {
        var none := packet.Extract(stream);
        return Ok(false);
      }
      var x := packet.Next(stream, ps);
      while stream.good
        invariant fresh(packet) && packet.stream == stream && packet.Valid()
        invariant gptr == old(gptr) && egptr == old(egptr) && buffer == old(buffer)
        invariant AllWritable(ps) && FindHeader(ps) == FindHeader(old(ps))
        invariant stream.good <==> ps != []
        invariant stream.good ==> packet.At(ps)
        decreases |ps|
      {
        ghost var all := ps;
        ps := ps[1..];
        if packet.opcode == IC_BEGIN_PAGE {
          r := ReadSizes(packet, all);
          return;
        }
        x := packet.Next(stream, ps);
      }
      return Ok(false);
    }

    /** The sizes of a page, out of the packet that begins it. */
    method ReadSizes(packet: StreamPacket, ghost all: seq<Packet>) returns (r: Result<bool, JobError>)
      requires AllWritable(all) && all != [] && packet.stream == stream && packet.At(all)
      modifies this`lineSize, this`linesCount, packet, stream
      ensures stream.Valid() && stream.good && stream.Rest() == Frames(all[1..])
      ensures var p := all[0].payload;
              if |p| < 33 then r == Err(InvalidPacketSize)
              else r == Ok(true) && lineSize == Wide(p[27], p[26]) && linesCount == Wide(p[29], p[28])
    {
      hide Frames, Frame, AllWritable;
      if packet.payloadSize < 33 {
        packet.Discard();
        return Err(InvalidPacketSize);
      }
      var payload := packet.ReadBytes(packet.payloadSize);
      assert payload == Ok(all[0].payload);
      lineSize := Wide(payload.value[27], payload.value[26]);
      linesCount := Wide(payload.value[29], payload.value[28]);
      return Ok(true);
    }

    /** The inner loop of `underflow`: the next block of data, or the end of the page's. */
    method FetchBlock() returns (more: bool)
      requires Valid() && stream.good
      modifies this`buffer, this`ps, stream
      ensures stream.Valid() && AllWritable(ps) && (stream.good ==> stream.Rest() == Frames(ps))
      ensures match NextBlock(old(ps))
              case Block(data, rest) => more && stream.good && buffer == data && ps == rest
              case NoBlock(rest) => !more && buffer == old(buffer) && ps == rest
    {
      hide Frames, Frame;
      more := false;
      while true
        invariant AllWritable(ps) && NextBlock(ps) == NextBlock(old(ps))
        invariant stream.Valid() && stream.good && stream.Rest() == Frames(ps) && buffer == old(buffer)
        decreases |ps|
      {
        var packet := new StreamPacket();
        var x := packet.Next(stream, ps);
        if !stream.good {
          return false;
        }
        ghost var all := ps;
        ps := ps[1..];
        if packet.opcode == 3 || packet.opcode == IC_END_PAGE {
          packet.Discard();
          return false;
        } else if packet.opcode == IC_VIDEO_DATA {
          var payload := packet.ReadBytes(packet.payloadSize);
          assert payload == Ok(all[0].payload);
          buffer := payload.value;
          return true;
        }
        packet.Discard();
      }
    }

    /** `underflow`. After the last block of a page it reports end-of-file once; the packets after
        the page's end are left for `ReadHeader`. */
    method Underflow() returns (c: Shown)
      requires Valid()
      requires stream.good && gptr == egptr ==> lineSize != 0 && linesCount != 0
      modifies this`buffer, this`gptr, this`egptr, this`ps, stream
      ensures Valid()
      ensures !old(stream.good) ==> c == EndOfFile && unchanged(this)
      ensures old(stream.good && gptr < egptr) ==> unchanged(this) && stream.good && c == Byte(buffer[gptr])
      ensures old(stream.good && gptr == egptr) ==>
                match NextBlock(old(ps))
                case NoBlock(rest) => c == EndOfFile && gptr == egptr && ps == rest
                case Block(data, rest) =>
                  && c == (if data == [] then PastBuffer else Byte(data[0]))
                  && stream.good && ps == rest && buffer == data && gptr == 0 && egptr == |data|
    {
      hide Frames;
      if !stream.good {
        return EndOfFile;
      }
      if gptr < egptr {
        return Byte(buffer[gptr]);
      }
      var more := FetchBlock();
      if !more {
        return EndOfFile;
      }
      gptr, egptr := 0, |buffer|;
      return if buffer == [] then PastBuffer else Byte(buffer[gptr]);
    }

    /** Sees to it that the get area has a byte, if the page has one. */
    method Refill(ghost ps0: seq<Packet>, ghost asked: nat) returns (more: bool)
      requires Valid() && stream.good && lineSize != 0 && linesCount != 0 && Reached(ps0, asked)
      modifies this`buffer, this`gptr, this`egptr, this`ps, stream
      ensures Valid()
      ensures if more then stream.good && gptr < egptr && Shows(ps0, asked) else asked == |VideoOf(ps0)|
    {
      hide Frames, VideoOf, Left, NoEmptyBlocks, Fetched, NextBlock;
      if gptr < egptr {
        return true;
      }
      ghost var before := ps;
      FetchedSound(ps0, before, asked);
      BlockFirst(before);
      Areas(buffer, gptr, VideoOf(before));
      var c := Underflow();
      if c == EndOfFile {
        return false;
      }
      FetchedMore(ps0, before, asked);
      Areas(buffer, 0, VideoOf(ps));
      return true;
    }

    /** Takes `k` bytes of the current block. */
    method Take(k: nat, ghost ps0: seq<Packet>, ghost asked: nat) returns (chunk: seq<byte>)
      requires Valid() && 1 <= k <= egptr - gptr && Shows(ps0, asked)
      modifies this`gptr
      ensures Valid() && |chunk| == k && Reached(ps0, asked + k)
      ensures asked + k <= |VideoOf(ps0)| && chunk == VideoOf(ps0)[asked..asked + k]
    {
      hide Frames, VideoOf, Left, NoEmptyBlocks, Fetched;
      ghost var all := VideoOf(ps0);
      chunk := buffer[gptr..gptr + k];
      gptr := gptr + k;
      assert buffer[old(gptr)..egptr] == chunk + buffer[gptr..egptr];
      Assoc(chunk, buffer[gptr..egptr], VideoOf(ps));
      TakeFirst(all, asked, chunk, Pending());
    }

    /** The decoder's reads. Over any sequence of them the reader is a plain stream of the page's
        video, and no packet is read before its first byte is wanted. */
    method Sgetn(n: nat, ghost ps0: seq<Packet>, ghost asked: nat) returns (s: seq<byte>)
      requires Valid() && stream.good && lineSize != 0 && linesCount != 0 && Reached(ps0, asked)
      modifies this`buffer, this`gptr, this`egptr, this`ps, stream
      ensures Valid()
      ensures s == VideoOf(ps0)[asked..][..Min(n, |VideoOf(ps0)| - asked)]
      ensures asked + n <= |VideoOf(ps0)| ==> stream.good && Reached(ps0, asked + n)
    {
      hide Frames, Left, VideoOf, Reached, Shows, Fetched;
      ReachedFits(ps0, asked);
      s := [];
      while |s| < n
        invariant Valid() && stream.good && lineSize != 0 && linesCount != 0
        invariant |s| <= n && asked + |s| <= |VideoOf(ps0)| && s == VideoOf(ps0)[asked..asked + |s|]
        invariant Reached(ps0, asked + |s|)
        decreases n - |s|
      {
        var more := Refill(ps0, asked + |s|);
        if !more {
          break;
        }
        var chunk := Take(Min(n - |s|, egptr - gptr), ps0, asked + |s|);
        s := s + chunk;
      }
    }

    lemma ReachedFits(ps0: seq<Packet>, asked: nat)
      requires Valid() && Reached(ps0, asked)
      ensures asked <= |VideoOf(ps0)|
    {
    }
  }

  /** Get areas that hold nothing, and everything. */
  lemma Areas(buffer: seq<byte>, gptr: nat, more: seq<byte>)
    requires gptr <= |buffer|
    ensures buffer[gptr..gptr] + more == more && buffer[0..|buffer|] + more == buffer + more
  {
  }

  lemma TakeFirst(all: seq<byte>, asked: nat, chunk: seq<byte>, rest: seq<byte>)
    requires asked <= |all| && all[asked..] == chunk + rest
    ensures asked + |chunk| <= |all| && chunk == all[asked..asked + |chunk|] && rest == all[asked + |chunk|..]
  {
    assert chunk == all[asked..][..|chunk|];
    assert rest == all[asked..][|chunk|..];
  }

  /** Reading whole blocks keeps the rest free of empty ones. */
  lemma {:induction false} FetchedSound(ps0: seq<Packet>, ps: seq<Packet>, f: nat)
    requires Fetched(ps0, ps, f) && NoEmptyBlocks(ps0)
    ensures NoEmptyBlocks(ps)
    decreases |ps0|
  {
    hide NoEmptyBlocks;
    if !(f == 0 && ps == ps0) {
      var first := NextBlock(ps0);
      FetchedSound(first.rest, ps, f - |first.data|);
    }
  }

  lemma BlockFirst(ps: seq<Packet>)
    ensures VideoOf(ps) == match NextBlock(ps)
                           case Block(data, rest) => data + VideoOf(rest)
                           case NoBlock(_) => []
    ensures NoEmptyBlocks(ps) && NextBlock(ps).Block? ==> NextBlock(ps).data != []
  {
  }
}
