/** What the host says to the printer while it sends a page, and the packets it is said in
    (libcapt/Protocol/Protocol.cpp:23-64 and 114-125). */
module Transmissions {
  import opened Bytes
  import opened Bits
  import opened Packets
  import opened BufferedPages

  /** One message to the printer; a poll is shown with the status that came back. */
  datatype Event =
    | AskInfo
    | BeginPage(params: PageParams)
    | BeginData
    | Poll(status: byte)
    | VideoData(data: seq<byte>)
    | EndPage

  const NOT_READY: byte := 2
  const IM_DATA_BUSY: byte := 8

  const IC_BEGIN_PAGE := 0xD0A0
  const IC_BEGIN_DATA := 0xD0A1
  const IC_END_PAGE := 0xD0A2
  const IC_VIDEO_DATA := 0xC0A0
  const PC_GET_PRINTER_INFO := 0xA1A1
  const PCR_GET_BASIC_STATUS := 0xE0A0

  /** The payload of IC_BEGIN_PAGE. */
  function BeginPagePayload(p: PageParams): (s: seq<byte>)
    ensures |s| == 34
  {
    [0, 0, 0xfc, 0x03, p.paperSize, 1, 1, 0]
    + [p.tonerDensity, p.tonerDensity, p.tonerDensity, p.tonerDensity, p.mode, p.resolution, 3, 1, 1, 1]
    + [if p.smoothEnable then 2 else 0, if p.tonerSaving then 1 else 0, 0, 0]
    + Little16(p.marginLeft) + Little16(p.marginTop) + Little16(p.imageLineSize) + Little16(p.imageLines)
    + Little16(p.paperWidth) + Little16(p.paperHeight)
  }

  function PacketOf(e: Event): Packet {
    match e
    case AskInfo => Packet(PC_GET_PRINTER_INFO, [])
    case BeginPage(params) => Packet(IC_BEGIN_PAGE, BeginPagePayload(params))
    case BeginData => Packet(IC_BEGIN_DATA, [])
    case Poll(_) => Packet(PCR_GET_BASIC_STATUS, [])
    case VideoData(data) => Packet(IC_VIDEO_DATA, data)
    case EndPage => Packet(IC_END_PAGE, [])
  }

  function PacketsOf(es: seq<Event>): (ps: seq<Packet>)
    ensures |ps| == |es| && forall i | 0 <= i < |es| :: ps[i] == PacketOf(es[i])
  {
    seq(|es|, i requires 0 <= i < |es| => PacketOf(es[i]))
  }

  /** The video bytes among some messages. */
  function Sent(es: seq<Event>): seq<byte> {
    if es == [] then []
    else Sent(es[..|es| - 1]) + if es[|es| - 1].VideoData? then es[|es| - 1].data else []
  }

  predicate TakesData(status: byte) {
    And(status, NOT_READY) == 0 && And(status, IM_DATA_BUSY) == 0
  }

  /** The statuses that came back, in order. */
  function Polled(es: seq<Event>): seq<byte> {
    if es == [] then []
    else Polled(es[..|es| - 1]) + if es[|es| - 1].Poll? then [es[|es| - 1].status] else []
  }

  /** Whether nothing is being waited for: the next message, if any, is the first poll for a block. */
  predicate AtBlock(es: seq<Event>) {
    es == [] || es[|es| - 1].VideoData?
  }

  /** The block of `video` that begins at byte `k`: a full one, unless the video ends before. */
  function Chunk(video: seq<byte>, k: nat, blockSize: nat): seq<byte>
    requires k <= |video|
  {
    video[k..][..Min(blockSize, |video| - k)]
  }

  /** What comes next while a page is being sent: polls until one is answered "ready" and "not busy",
      and then the block. A printer that is not ready ends it. */
  predicate MayFollow(es: seq<Event>, e: Event, video: seq<byte>, blockSize: nat) {
    && blockSize > 0 && |Sent(es)| < |video|
    && if AtBlock(es) || !es[|es| - 1].Poll? then e.Poll?
       else
         var status := es[|es| - 1].status;
         if TakesData(status) then e == VideoData(Chunk(video, |Sent(es)|, blockSize))
         else And(status, NOT_READY) == 0 && e.Poll?
  }

  /** The messages between IC_BEGIN_DATA and IC_END_PAGE, or an initial part of them. */
  predicate Blocks(es: seq<Event>, video: seq<byte>, blockSize: nat) {
    es == [] ||
    (Blocks(es[..|es| - 1], video, blockSize) && MayFollow(es[..|es| - 1], es[|es| - 1], video, blockSize))
  }

  lemma BlocksSnoc(es: seq<Event>, e: Event, video: seq<byte>, blockSize: nat)
    ensures Blocks(es + [e], video, blockSize) <==>
            Blocks(es, video, blockSize) && MayFollow(es, e, video, blockSize)
  {
    assert (es + [e])[..|es|] == es;
  }

  /** A block is full, unless it is the last of the video, and came right after a poll that showed a
      ready printer with room. What came after any other poll is a poll. */
  predicate Timed(es: seq<Event>, i: nat, video: seq<byte>, blockSize: nat)
    requires i < |es|
  {
    match es[i]
    case VideoData(data) =>
      && 1 <= |data| <= blockSize && (|data| == blockSize || Sent(es[..i + 1]) == video)
      && i > 0 && es[i - 1].Poll? && TakesData(es[i - 1].status)
    case Poll(status) =>
      i + 1 < |es| ==>
        if TakesData(status) then es[i + 1].VideoData? else es[i + 1].Poll? && And(status, NOT_READY) == 0
    case _ => false
  }

  /** What the messages of a page come to: the beginning of its video, in blocks sent when they may be. */
  lemma {:induction false} BlocksAre(es: seq<Event>, video: seq<byte>, blockSize: nat)
    requires Blocks(es, video, blockSize)
    ensures Sent(es) <= video
    ensures forall i | 0 <= i < |es| :: Timed(es, i, video, blockSize)
  {
    hide And, Sent;
    SentNone();
    if es != [] {
      var before, last := es[..|es| - 1], es[|es| - 1];
      BlocksAre(before, video, blockSize);
      assert es == before + [last];
      SentSnoc(before, last);
      forall i | 0 <= i < |es| ensures Timed(es, i, video, blockSize) {
        assert i < |before| ==> es[..i + 1] == before[..i + 1] && Timed(before, i, video, blockSize);
        assert es[..|es|] == es;
      }
    }
  }

  lemma SentNone()
    ensures Sent([]) == []
  {
  }

  lemma {:induction false} PolledAppend(a: seq<Event>, b: seq<Event>)
    ensures Polled(a + b) == Polled(a) + Polled(b)
    decreases |b|
  {
    if b == [] {
      assert a + b == a;
    } else {
      var before, last := b[..|b| - 1], b[|b| - 1];
      PolledAppend(a, before);
      assert a + b == a + before + [last] && b == before + [last];
      PolledSnoc(a + before, last);
      PolledSnoc(before, last);
    }
  }

  /** The messages of one try at sending a page whose video stream is `video`. */
  predicate Transmission(es: seq<Event>, params: PageParams, video: seq<byte>, blockSize: nat, complete: bool) {
    var tail := if complete then 1 else 0;
    && |es| >= 2 + tail && es[0] == BeginPage(params) && es[1] == BeginData
    && (complete ==> es[|es| - 1] == EndPage)
    && var blocks := es[2..|es| - tail];
       && Blocks(blocks, video, blockSize)
       && Sent(blocks) <= video && (complete ==> Sent(blocks) == video && AtBlock(blocks))
  }

  lemma PolledSnoc(es: seq<Event>, e: Event)
    ensures Polled(es + [e]) == Polled(es) + if e.Poll? then [e.status] else []
  {
    assert (es + [e])[..|es|] == es;
  }

  lemma SentSnoc(es: seq<Event>, e: Event)
    ensures Sent(es + [e]) == Sent(es) + if e.VideoData? then e.data else []
  {
    assert (es + [e])[..|es|] == es;
  }
}

/** The printer driver (libcapt/BasicCaptPrinter.hpp). */
module CaptPrinters {
  import opened Bytes
  import opened Bits
  import opened Streams
  import opened Packets
  import opened BufferedPages
  import opened Transmissions

  /** A stop request, once made, stays made. `left` counts the questions still answered "no". */
  class StopToken {
    var left: Option<nat>

    constructor (left: Option<nat>)
      ensures this.left == left
    {
      this.left := left;
    }

    ghost predicate Requested()
      reads this
    {
      left == Some(0)
    }

    method StopRequested() returns (stop: bool)
      modifies this
      ensures stop <==> old(Requested())
      ensures left == if old(left) == None || stop then old(left) else Some(old(left).value - 1)
      ensures old(Requested()) ==> Requested()
      ensures old(left) == None ==> left == None
    {
      stop := left == Some(0);
      if left.Some? && left.value > 0 {
        left := Some(left.value - 1);
      }
    }
  }

  /** How a call came out. A run is cut off where the printer's answers, of which the model has
      finitely many, are used up; any finite part of a run is covered that way. */
  datatype Verdict = Finished(ok: bool) | CutOff | AssertionFailed

  /** Where a call started: the messages sent, the answers to come, and the looks at the token that
      say "no". */
  datatype Snapshot = Snapshot(trace: seq<Event>, statuses: seq<byte>, left: Option<nat>)

  /** Why the polling loop ended. */
  datatype PollEnd = Go | NotReady | NoAnswer

  class CaptPrinter {
    const stream: ByteVector
    var cachedInfo: Option<nat>
    // the printer's side: the block size it would report, and its answers to polls
    const reportedBlockSize: u16
    var statuses: seq<byte>
    // for the specification: every message sent
    ghost var trace: seq<Event>

    ghost predicate Valid()
      reads this, stream
    {
      && AllWritable(PacketsOf(trace)) && stream.bytes == Frames(PacketsOf(trace))
      && (cachedInfo == None || cachedInfo == Some(reportedBlockSize as nat))
    }

    constructor (reportedBlockSize: u16, statuses: seq<byte>)
      ensures Valid() && trace == [] && cachedInfo == None && fresh(stream)
      ensures this.reportedBlockSize == reportedBlockSize && this.statuses == statuses
    {
      stream := new ByteVector();
      this.reportedBlockSize, this.statuses := reportedBlockSize, statuses;
      cachedInfo, trace := None, [];
    }

    /** Writes one message. */
    method Send(e: Event)
      requires Valid() && Writable(PacketOf(e))
      modifies this`trace, stream
      ensures Valid() && trace == old(trace) + [e]
    {
      hide Frame, PacketOf;
      var p := PacketOf(e);
      assert PacketsOf(trace + [e]) == PacketsOf(trace) + [p];
      FramesAppend(PacketsOf(trace), [p]);
      FramesOne(p);
      var r := WriteTo(stream, p.opcode, p.payload);
      trace := trace + [e];
    }

    /** The printer's block size, asked for once. */
    method GetBlockSize() returns (n: nat)
      requires Valid()
      modifies this`trace, this`cachedInfo, stream
      ensures Valid() && n == reportedBlockSize && cachedInfo == Some(n)
      ensures trace == old(trace) + if old(cachedInfo) == None then [AskInfo] else []
    {
      if cachedInfo == None {
        Send(AskInfo);
        cachedInfo := Some(reportedBlockSize);
      }
      return cachedInfo.value;
    }

    /** Asks for the basic status; `None` where the printer's answers end. */
    method GetBasicStatus() returns (status: Option<byte>)
      requires Valid()
      modifies this`trace, this`statuses, stream
      ensures Valid()
      ensures if old(statuses) == [] then status == None && trace == old(trace) && statuses == []
              else status == Some(old(statuses)[0]) && statuses == old(statuses)[1..] &&
                   trace == old(trace) + [Poll(old(statuses)[0])]
    {
      if statuses == [] {
        return None;
      }
      Send(Poll(statuses[0]));
      status := Some(statuses[0]);
      statuses := statuses[1..];
    }

    /** Since `at`, `blocks` were sent. Every answer that was taken is the status of a poll in them, in
        order, and each of them came after a look at the token that said "no". */
    ghost predicate Since(at: Snapshot, token: StopToken, blocks: seq<Event>)
      reads this, token
    {
      && trace == at.trace + blocks && at.statuses == Polled(blocks) + statuses
      && (at.left == None ==> token.left == None)
      && (at.left.Some? ==> token.left.Some? && |blocks| + token.left.value <= at.left.value)
    }

    /** The last message is a poll that showed a printer that is not ready. */
    static ghost predicate EndsNotReady(es: seq<Event>) {
      es != [] && es[|es| - 1].Poll? && And(es[|es| - 1].status, NOT_READY) != 0
    }

    /** The loop that polls until the printer takes data or is not ready, or a stop is requested. It
        gives up only where there are no more answers. */
    method AwaitReady(token: StopToken, ghost at: Snapshot, ghost blocks: seq<Event>, ghost video: seq<byte>,
                      ghost bs: nat)
      returns (end: PollEnd, ghost blocks': seq<Event>)
      requires Valid() && Since(at, token, blocks) && Blocks(blocks, video, bs) && AtBlock(blocks)
      requires bs > 0 && |Sent(blocks)| < |video|
      modifies this`trace, this`statuses, stream, token
      ensures Valid() && Since(at, token, blocks') && Blocks(blocks', video, bs) && Sent(blocks') == Sent(blocks)
      ensures end == NotReady ==> EndsNotReady(blocks')
      ensures end == NoAnswer ==> statuses == []
      ensures end == Go ==>
                token.Requested() || (MayFollow(blocks', VideoData(Chunk(video, |Sent(blocks)|, bs)), video, bs))
    {
      hide And, Frames, PacketsOf, AllWritable, Blocks, Sent, Polled, Chunk;
      blocks' := blocks;
      while true
        invariant Valid() && Since(at, token, blocks') && Blocks(blocks', video, bs) && Sent(blocks') == Sent(blocks)
        invariant forall e: Event | e.Poll? :: MayFollow(blocks', e, video, bs)
        decreases |statuses|
      {
        var stop := token.StopRequested();
        if stop {
          return Go, blocks';
        }
        var status := GetBasicStatus();
        if status == None {
          return NoAnswer, blocks';
        }
        blocks' := Polls(at, blocks', status.value, video, bs, statuses);
        if And(status.value, NOT_READY) != 0 {
          return NotReady, blocks';
        }
        if And(status.value, IM_DATA_BUSY) == 0 {
          return Go, blocks';
        }
      }
    }

    /** One poll more. */
    static lemma Polls(at: Snapshot, blocks: seq<Event>, status: byte, video: seq<byte>, bs: nat, left: seq<byte>)
      returns (blocks': seq<Event>)
      requires Blocks(blocks, video, bs) && MayFollow(blocks, Poll(status), video, bs)
      requires at.statuses == Polled(blocks) + ([status] + left)
      ensures blocks' == blocks + [Poll(status)]
      ensures Blocks(blocks', video, bs) && Sent(blocks') == Sent(blocks) && at.statuses == Polled(blocks') + left
      ensures at.trace + blocks' == at.trace + blocks + [Poll(status)]
    {
      hide And, Blocks, Sent, Polled, Chunk, MayFollow;
      blocks' := blocks + [Poll(status)];
      BlocksSnoc(blocks, Poll(status), video, bs);
      SentSnoc(blocks, Poll(status));
      PolledSnoc(blocks, Poll(status));
      Assoc(Polled(blocks), [status], left);
      Assoc(at.trace, blocks, [Poll(status)]);
      assert Sent(blocks) + [] == Sent(blocks);
    }

    /** The block size in force: zero means the printer's own. */
    function BlockSize(blockSize: nat): nat {
      if blockSize == 0 then reportedBlockSize else blockSize
    }

    /** What a try at sending `page` can get through: nothing, if the printer reports blocks of
        size zero. */
    ghost function Transmittable(page: BufferedPage, blockSize: nat): seq<byte>
      reads page, page.videoStream
      requires page.Valid()
    {
      if BlockSize(blockSize) == 0 then [] else page.Pending()
    }

    /** Sends a page, polling before every block. */
    method WriteVideoData(token: StopToken, params: PageParams, page: BufferedPage, blockSize: nat)
      returns (v: Verdict, ghost es: seq<Event>)
      requires Valid() && page.Valid()
      modifies this`trace, this`cachedInfo, this`statuses, stream, token
      modifies page`buffer, page`gptr, page`egptr, page.videoStream
      ensures Valid() && page.Valid() && page.Complete() == old(page.Complete())
      ensures trace == old(trace) + (if blockSize == 0 && old(cachedInfo) == None then [AskInfo] else []) + es
      ensures old(statuses) == Polled(es) + statuses && |statuses| <= |old(statuses)|
      ensures v == AssertionFailed <==> BlockSize(blockSize) + 4 > 0xffff
      ensures v == AssertionFailed ==> es == []
      ensures v != AssertionFailed ==>
                Transmission(es, params, old(Transmittable(page, blockSize)), BlockSize(blockSize), v == Finished(true))
      ensures v == Finished(true) && BlockSize(blockSize) > 0 ==> page.buffer == page.Complete()
      ensures BlockSize(blockSize) == 0 ==> v == Finished(true) && es == [BeginPage(params), BeginData, EndPage]
      ensures v == Finished(false) ==> token.Requested() || EndsNotReady(es)
      ensures v == Finished(false) && !token.Requested() ==> |statuses| < |old(statuses)|
      ensures v == CutOff ==> statuses == []
      ensures old(token.left) == None ==> token.left == None
      ensures old(token.left).Some? ==> |es| <= 3 + old(token.left).value
    {
      hide And, Frames, Blocks, Sent, Polled, PacketsOf, AllWritable, Transmission;
      es := [];
      NonePolled();
      var bs := blockSize;
      if bs == 0 {
        bs := GetBlockSize();
      }
      if bs + 4 > 0xffff {
        return AssertionFailed, [];
      }
      v, es := Transmit(token, params, page, bs);
    }

    /** From IC_BEGIN_PAGE to IC_END_PAGE, or to what ends the try before it. */
    method Transmit(token: StopToken, params: PageParams, page: BufferedPage, bs: nat)
      returns (v: Verdict, ghost es: seq<Event>)
      requires Valid() && page.Valid() && bs + 4 <= 0xffff
      modifies this`trace, this`statuses, stream, token, page`buffer, page`gptr, page`egptr, page.videoStream
      ensures Valid() && page.Valid() && page.Complete() == old(page.Complete())
      ensures trace == old(trace) + es && v != AssertionFailed
      ensures old(statuses) == Polled(es) + statuses
      ensures Transmission(es, params, if bs == 0 then [] else old(page.Pending()), bs, v == Finished(true))
      ensures v == Finished(true) && bs > 0 ==> page.buffer == page.Complete()
      ensures bs == 0 ==> v == Finished(true) && es == [BeginPage(params), BeginData, EndPage]
      ensures v == Finished(false) ==> token.Requested() || EndsNotReady(es)
      ensures v == Finished(false) && !token.Requested() ==> |statuses| < |old(statuses)|
      ensures v == CutOff ==> statuses == []
      ensures old(token.left) == None ==> token.left == None
      ensures old(token.left).Some? ==> |es| <= 3 + old(token.left).value
    {
      hide And, Frames, Blocks, Sent, Polled, PacketsOf, AllWritable, Transmission, EndsNotReady;
      Send(BeginPage(params));
      Send(BeginData);
      ghost var start := [BeginPage(params), BeginData];
      Assoc(old(trace), [BeginPage(params)], [BeginData]);
      assert trace == old(trace) + start;
      ghost var at := Snapshot(trace, statuses, token.left);
      ghost var video := if bs == 0 then [] else page.Pending();
      ghost var blocks;
      v, blocks := SendBlocks(token, page, bs, at, video);
      Assoc(old(trace), start, blocks);
      es := start + blocks;
      StartPolled(params, blocks);
      if v == Finished(true) {
        Send(EndPage);
        Assoc(old(trace), es, [EndPage]);
        es := es + [EndPage];
      } else if v == Finished(false) && !token.Requested() {
        NotReadyPolled(start, blocks);
      }
      TransmissionOf(es, params, blocks, video, bs, v == Finished(true));
    }

    /** The loop over blocks, up to the end of the stream. */
    method SendBlocks(token: StopToken, page: BufferedPage, bs: nat, ghost at: Snapshot, ghost video: seq<byte>)
      returns (v: Verdict, ghost blocks: seq<Event>)
      requires Valid() && page.Valid() && bs + 4 <= 0xffff && at == Snapshot(trace, statuses, token.left)
      requires video == if bs == 0 then [] else page.Pending()
      modifies this`trace, this`statuses, stream, token, page`buffer, page`gptr, page`egptr, page.videoStream
      ensures Valid() && page.Valid() && page.Complete() == old(page.Complete()) && v != AssertionFailed
      ensures Since(at, token, blocks) && Blocks(blocks, video, bs)
      ensures v == Finished(true) ==> Sent(blocks) == video && AtBlock(blocks)
      ensures v == Finished(true) && bs > 0 ==> page.buffer == page.Complete()
      ensures bs == 0 ==> v == Finished(true) && blocks == []
      ensures v == Finished(false) ==> token.Requested() || EndsNotReady(blocks)
      ensures v == CutOff ==> statuses == []
    {
      hide And, Frames, Blocks, Sent, Polled, PacketsOf, AllWritable, EndsNotReady;
      blocks := [];
      NonePolled();
      while true
        invariant Valid() && page.Valid() && page.Complete() == old(page.Complete())
        invariant Since(at, token, blocks) && Blocks(blocks, video, bs) && AtBlock(blocks)
        invariant if bs == 0 then blocks == [] else video == Sent(blocks) + page.Pending()
        decreases |page.Pending()|
      {
        var over;
        over, blocks := NextBlock(token, page, bs, at, video, blocks);
        if over.Some? {
          return over.value, blocks;
        }
      }
    }

    /** One turn of the loop: a block is read and, if there is one, sent. */
    method NextBlock(token: StopToken, page: BufferedPage, bs: nat, ghost at: Snapshot, ghost video: seq<byte>,
                     ghost blocks: seq<Event>)
      returns (over: Option<Verdict>, ghost blocks': seq<Event>)
      requires Valid() && page.Valid() && bs + 4 <= 0xffff
      requires Since(at, token, blocks) && Blocks(blocks, video, bs) && AtBlock(blocks)
      requires if bs == 0 then blocks == [] && video == [] else video == Sent(blocks) + page.Pending()
      modifies this`trace, this`statuses, stream, token, page`buffer, page`gptr, page`egptr, page.videoStream
      ensures Valid() && page.Valid() && page.Complete() == old(page.Complete())
      ensures Since(at, token, blocks') && Blocks(blocks', video, bs) && over != Some(AssertionFailed)
      ensures over == None ==>
                && AtBlock(blocks') && bs > 0 && |page.Pending()| < |old(page.Pending())|
                && video == Sent(blocks') + page.Pending()
      ensures over == Some(Finished(true)) ==>
                blocks' == blocks && Sent(blocks) == video && (bs > 0 ==> page.buffer == page.Complete())
      ensures bs == 0 ==> over == Some(Finished(true))
      ensures over == Some(Finished(false)) ==> token.Requested() || EndsNotReady(blocks')
      ensures over == Some(CutOff) ==> statuses == []
    {
      hide And, Frames, Blocks, Sent, Polled, PacketsOf, AllWritable, EndsNotReady;
      NonePolled();
      var read := page.Sgetn(bs);
      if |read| == 0 {
        assert bs > 0 ==> page.Pending() == [] && Sent(blocks) + [] == Sent(blocks);
        return Some(Finished(true)), blocks;
      }
      Assoc(Sent(blocks), read, page.Pending());
      ChunkIs(Sent(blocks), read, page.Pending(), bs);
      over, blocks' := SendBlock(token, read, bs, at, video, blocks);
    }

    /** One block: polls, a last look at the token, and the data, unless something ends the try. */
    method SendBlock(token: StopToken, read: seq<byte>, bs: nat, ghost at: Snapshot, ghost video: seq<byte>,
                     ghost blocks: seq<Event>)
      returns (over: Option<Verdict>, ghost blocks': seq<Event>)
      requires Valid() && bs > 0 && bs + 4 <= 0xffff && read != []
      requires Since(at, token, blocks) && Blocks(blocks, video, bs) && AtBlock(blocks)
      requires |Sent(blocks)| < |video| && read == Chunk(video, |Sent(blocks)|, bs)
      modifies this`trace, this`statuses, stream, token
      ensures Valid() && Since(at, token, blocks') && Blocks(blocks', video, bs)
      ensures over == None || over == Some(CutOff) || over == Some(Finished(false))
      ensures over == None ==> AtBlock(blocks') && Sent(blocks') == Sent(blocks) + read
      ensures over == Some(Finished(false)) ==> token.Requested() || EndsNotReady(blocks')
      ensures over == Some(CutOff) ==> statuses == []
    {
      hide And, Frames, Blocks, Sent, Polled, PacketsOf, AllWritable, EndsNotReady, MayFollow;
      var end;
      end, blocks' := AwaitReady(token, at, blocks, video, bs);
      if end == NoAnswer {
        return Some(CutOff), blocks';
      }
      if end == NotReady {
        return Some(Finished(false)), blocks';
      }
      var stop := token.StopRequested();
      if stop {
        return Some(Finished(false)), blocks';
      }
      Send(VideoData(read));
      BlocksSnoc(blocks', VideoData(read), video, bs);
      SentSnoc(blocks', VideoData(read));
      PolledSnoc(blocks', VideoData(read));
      Assoc(at.trace, blocks', [VideoData(read)]);
      assert Polled(blocks') + [] == Polled(blocks');
      blocks' := blocks' + [VideoData(read)];
      over := None;
    }
  }

  /** A printer that reports blocks of size zero: whatever the page, nothing of it is sent, no poll
      is made, and the call reports success. */
  method ZeroBlockSize(params: PageParams, video: seq<byte>) returns (v: Verdict, bytes: seq<byte>)
    ensures v == Finished(true)
    ensures AllWritable(PacketsOf([AskInfo, BeginPage(params), BeginData, EndPage]))
    ensures bytes == Frames(PacketsOf([AskInfo, BeginPage(params), BeginData, EndPage]))
  {
    hide Frames, PacketsOf, AllWritable, Transmission, And;
    var source := new ByteStream(video);
    var page := new BufferedPage(0, params, source, 4096);
    var printer := new CaptPrinter(0, []);
    var never := new StopToken(None);
    ghost var es;
    v, es := printer.WriteVideoData(never, params, page, 0);
    EmptyPage(params);
    bytes := printer.stream.bytes;
  }

  lemma EmptyPage(params: PageParams)
    ensures [] + [AskInfo] + [BeginPage(params), BeginData, EndPage] == [AskInfo, BeginPage(params), BeginData, EndPage]
  {
  }

  lemma TransmissionOf(es: seq<Event>, params: PageParams, blocks: seq<Event>, video: seq<byte>,
                       bs: nat, complete: bool)
    requires es == [BeginPage(params), BeginData] + blocks + if complete then [EndPage] else []
    requires Blocks(blocks, video, bs) && (complete ==> Sent(blocks) == video && AtBlock(blocks))
    ensures Transmission(es, params, video, bs, complete)
  {
    hide Blocks, Sent;
    BlocksAre(blocks, video, bs);
    assert es[2..|es| - if complete then 1 else 0] == blocks;
  }

  lemma NonePolled()
    ensures Polled([]) == [] && Sent([]) == []
    ensures forall video: seq<byte>, bs: nat :: Blocks([], video, bs)
  {
  }

  /** The messages around a page's blocks are no polls. */
  lemma StartPolled(params: PageParams, blocks: seq<Event>)
    ensures Polled([BeginPage(params), BeginData] + blocks) == Polled(blocks)
    ensures Polled([BeginPage(params), BeginData] + blocks + [EndPage]) == Polled(blocks)
  {
    var start := [BeginPage(params), BeginData];
    PolledSnoc([], BeginPage(params));
    PolledSnoc([BeginPage(params)], BeginData);
    assert [] + [BeginPage(params)] == [BeginPage(params)] && [BeginPage(params)] + [BeginData] == start;
    PolledAppend(start, blocks);
    PolledSnoc(start + blocks, EndPage);
  }

  lemma NotReadyPolled(start: seq<Event>, blocks: seq<Event>)
    requires CaptPrinter.EndsNotReady(blocks)
    ensures CaptPrinter.EndsNotReady(start + blocks) && Polled(blocks) != []
  {
  }

  lemma ChunkIs(sent: seq<byte>, read: seq<byte>, rest: seq<byte>, bs: nat)
    requires |read| == Min(bs, |read + rest|)
    ensures var video := sent + (read + rest);
            |sent| <= |video| && read == Chunk(video, |sent|, bs)
  {
    assert (sent + (read + rest))[|sent|..] == read + rest;
  }
}
