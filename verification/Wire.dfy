/** What the bytes on the wire mean, said in numbers and without the model's own encoders: of the
    SCoA stream (libcapt/Compression/ScoaCmd.cpp, Decoder/DecoderStreambuf.cpp) and of the packets
    (libcapt/Protocol/Protocol.cpp). */
module ScoaWire {
  import opened Bytes
  import opened ScoaCmd
  import opened Decoder

  /** The stream `s` begins with a command of `size` bytes that turns the raster `out` into `r`. */
  predicate Does(s: seq<byte>, size: nat, out: seq<byte>, lineSize: nat, r: Result<seq<byte>, DecodeError>)
    requires lineSize >= 1
  {
    Parse(s).Ok? && Parse(s).value.size == size && Exec(Parse(s).value.cmd, out, lineSize) == r
  }

  /** From the command to its bytes and back to its effect. */
  lemma PrintedDoes(c: Cmd, bytes: seq<byte>, rest: seq<byte>, out: seq<byte>, lineSize: nat)
    requires lineSize >= 1 && InRange(c) && Print(c) == bytes
    ensures Does(bytes + rest, |bytes|, out, lineSize, Exec(c, out, lineSize))
  {
    hide Parse, Print, Exec;
    ParsePrint(c, rest);
  }

  lemma WireRepeatX(n: nat, rest: seq<byte>, out: seq<byte>, lineSize: nat)
    requires 1 <= n <= 7 && lineSize >= 1
    ensures Print(RepeatX(n)) == [0xc0 + 8 * n]
    ensures Does([0xc0 + 8 * n] + rest, 1, out, lineSize, Ok(out + Fill(n, 0x43)))
  {
    assert Print(RepeatX(n)) == [0xc0 + 8 * n];
    hide Parse, Print;
    PrintedDoes(RepeatX(n), [0xc0 + 8 * n], rest, out, lineSize);
  }

  lemma RepeatXLongBytes(n: nat)
    requires 8 <= n <= 255
    ensures Print(RepeatXLong(n)) == [0xa0 + n / 8, 8 * (n % 8)]
  {
    hide Op, Op5;
    OpBytes(n / 8, n % 8);
  }

  lemma OpBytes(five: nat, mid: nat)
    requires five < 32 && mid < 8
    ensures Op5(5, five) == 0xa0 + five && Op(0, mid, 0) == 8 * mid
  {
  }

  lemma WireRepeatXLong(n: nat, rest: seq<byte>, out: seq<byte>, lineSize: nat)
    requires 8 <= n <= 255 && lineSize >= 1
    ensures Print(RepeatXLong(n)) == [0xa0 + n / 8, 8 * (n % 8)]
    ensures Does([0xa0 + n / 8, 8 * (n % 8)] + rest, 2, out, lineSize, Ok(out + Fill(n, 0x43)))
  {
    hide Parse, Print;
    RepeatXLongBytes(n);
    PrintedDoes(RepeatXLong(n), [0xa0 + n / 8, 8 * (n % 8)], rest, out, lineSize);
  }

  lemma WireCopyShort(n: nat, rest: seq<byte>, out: seq<byte>, lineSize: nat)
    requires 1 <= n <= 7 && lineSize >= 1
    ensures Print(CopyShort(n)) == [0xc0 + n]
    ensures Does([0xc0 + n] + rest, 1, out, lineSize, CopyWindow(out, n, lineSize))
  {
    assert Print(CopyShort(n)) == [0xc0 + n];
    hide Parse, Print, CopyWindow;
    PrintedDoes(CopyShort(n), [0xc0 + n], rest, out, lineSize);
  }

  lemma WireCopyLong(m: nat, rest: seq<byte>, out: seq<byte>, lineSize: nat)
    requires 1 <= m <= 31 && lineSize >= 1
    ensures Print(CopyLong(8 * m)) == [0x80 + m]
    ensures Does([0x80 + m] + rest, 1, out, lineSize, CopyWindow(out, 8 * m, lineSize))
  {
    assert Print(CopyLong(8 * m)) == [0x80 + m];
    hide Parse, Print, CopyWindow;
    PrintedDoes(CopyLong(8 * m), [0x80 + m], rest, out, lineSize);
  }

  lemma WireCopyThenRaw(copy: nat, raw: seq<byte>, rest: seq<byte>, out: seq<byte>, lineSize: nat)
    requires copy <= 7 && 1 <= |raw| <= 7 && lineSize >= 1
    ensures Print(CopyThenRaw(copy, raw)) == [8 * |raw| + copy] + raw
    ensures Does([8 * |raw| + copy] + raw + rest, 1 + |raw|, out, lineSize, Then(CopyWindow(out, copy, lineSize), raw))
  {
    var bytes := [8 * |raw| + copy] + raw;
    assert Print(CopyThenRaw(copy, raw)) == bytes;
    hide Parse, Print, CopyWindow;
    PrintedDoes(CopyThenRaw(copy, raw), bytes, rest, out, lineSize);
  }

  lemma WireCopyThenRawLong(copy: nat, raw: seq<byte>, rest: seq<byte>, out: seq<byte>, lineSize: nat)
    requires copy <= 7 && 8 <= |raw| <= 255 && lineSize >= 1
    ensures var bytes := [0xa0 + |raw| / 8, 0xc0 + 8 * (|raw| % 8) + copy] + raw;
            && Print(CopyThenRawLong(copy, raw)) == bytes
            && Does(bytes + rest, 2 + |raw|, out, lineSize, Then(CopyWindow(out, copy, lineSize), raw))
  {
    var bytes := [0xa0 + |raw| / 8, 0xc0 + 8 * (|raw| % 8) + copy] + raw;
    assert Print(CopyThenRawLong(copy, raw)) == bytes;
    hide Parse, Print, CopyWindow;
    PrintedDoes(CopyThenRawLong(copy, raw), bytes, rest, out, lineSize);
  }

  lemma WireCopyThenRepeat(copy: nat, n: nat, b: byte, rest: seq<byte>, out: seq<byte>, lineSize: nat)
    requires copy <= 7 && 2 <= n <= 7 && lineSize >= 1
    ensures Print(CopyThenRepeat(copy, n, b)) == [0x40 + 8 * n + copy, b]
    ensures Does([0x40 + 8 * n + copy, b] + rest, 2, out, lineSize, Then(CopyWindow(out, copy, lineSize), Fill(n, b)))
  {
    var bytes := [0x40 + 8 * n + copy, b];
    assert Print(CopyThenRepeat(copy, n, b)) == bytes;
    hide Parse, Print, CopyWindow;
    PrintedDoes(CopyThenRepeat(copy, n, b), bytes, rest, out, lineSize);
  }

  lemma WireCopyThenRepeatLong(copy: nat, n: nat, b: byte, rest: seq<byte>, out: seq<byte>, lineSize: nat)
    requires copy <= 7 && 8 <= n <= 255 && lineSize >= 1
    ensures var bytes := [0xa0 + n / 8, 0x80 + 8 * (n % 8) + copy, b];
            && Print(CopyThenRepeatLong(copy, n, b)) == bytes
            && Does(bytes + rest, 3, out, lineSize, Then(CopyWindow(out, copy, lineSize), Fill(n, b)))
  {
    var bytes := [0xa0 + n / 8, 0x80 + 8 * (n % 8) + copy, b];
    assert Print(CopyThenRepeatLong(copy, n, b)) == bytes;
    hide Parse, Print, CopyWindow;
    PrintedDoes(CopyThenRepeatLong(copy, n, b), bytes, rest, out, lineSize);
  }

  lemma WireRepeatThenRaw(n: nat, b: byte, raw: seq<byte>, rest: seq<byte>, out: seq<byte>, lineSize: nat)
    requires 2 <= n <= 7 && 1 <= |raw| <= 7 && lineSize >= 1
    ensures Print(RepeatThenRaw(n, b, raw)) == [0xc0 + 8 * n + |raw|, b] + raw
    ensures Does([0xc0 + 8 * n + |raw|, b] + raw + rest, 2 + |raw|, out, lineSize, Ok(out + Fill(n, b) + raw))
  {
    var bytes := [0xc0 + 8 * n + |raw|, b] + raw;
    assert Print(RepeatThenRaw(n, b, raw)) == bytes;
    hide Parse, Print;
    PrintedDoes(RepeatThenRaw(n, b, raw), bytes, rest, out, lineSize);
  }

  lemma WireRepeatThenRawLong(n: nat, b: byte, raw: seq<byte>, rest: seq<byte>, out: seq<byte>, lineSize: nat)
    requires 2 <= n <= 7 && 8 <= |raw| <= 255 && lineSize >= 1
    ensures var bytes := [0xa0 + |raw| / 8, 0x40 + 8 * n + |raw| % 8, b] + raw;
            && Print(RepeatThenRawLong(n, b, raw)) == bytes
            && Does(bytes + rest, 3 + |raw|, out, lineSize, Ok(out + Fill(n, b) + raw))
  {
    var bytes := [0xa0 + |raw| / 8, 0x40 + 8 * n + |raw| % 8, b] + raw;
    assert Print(RepeatThenRawLong(n, b, raw)) == bytes;
    hide Parse, Print;
    PrintedDoes(RepeatThenRawLong(n, b, raw), bytes, rest, out, lineSize);
  }

  /** The padding does nothing, and the end of a line copies what the line still lacks. */
  lemma WireMarkers(rest: seq<byte>, out: seq<byte>, lineSize: nat)
    requires lineSize >= 1
    ensures Print(NOP) == [0x40] && Print(EOL) == [0x41] && Print(EOP) == [0x42]
    ensures Does([0x40] + rest, 1, out, lineSize, Ok(out))
    ensures Does([0x41] + rest, 1, out, lineSize, CopyWindow(out, lineSize - |out| % lineSize, lineSize))
    ensures Parse([0x42] + rest) == Ok(Parsed(EOP, 1))
  {
    hide CopyWindow;
  }

  /** 0x42 ends the page where the command bytes before it, with itself, are even in number; after
      an even number of them it is refused. */
  lemma EopParity(rest: seq<byte>, out: seq<byte>, lineSize: nat, target: nat, videoSize: nat)
    requires lineSize >= 1 && |out| < target
    ensures DecodeLine([0x42] + rest, out, lineSize, target, videoSize) ==
            if videoSize % 2 == 1 then PageEnd(rest, out) else LineFailed(OddVideoSize)
  {
    assert ([0x42] + rest)[1..] == rest;
  }

  /** The example of the repository's README: two bytes from the line above, and five times 0x12. */
  lemma ReadmeExample(rest: seq<byte>, out: seq<byte>, lineSize: nat)
    requires lineSize >= 2 && |out| >= lineSize
    ensures var start := |out| - lineSize;
            Does([0x6a, 0x12] + rest, 2, out, lineSize,
                 Ok(out + out[start..start + 2] + [0x12, 0x12, 0x12, 0x12, 0x12]))
  {
    var start := |out| - lineSize;
    WireCopyThenRepeat(2, 5, 0x12, rest, out, lineSize);
    assert Fill(5, 0x12) == [0x12, 0x12, 0x12, 0x12, 0x12];
    assert out[start..][..2] == out[start..start + 2];
    hide Parse, Print;
  }

  /** A page of one line of bytes 0x43: the decoder's special byte, seen from the stream alone. */
  lemma SpecialByte()
    ensures DecodePage([0xd8, 0x42], [], 3, 0) == PageOutcome([0x43, 0x43, 0x43], CleanEof, [])
  {
    WireRepeatX(3, [0x42], [], 3);
    assert [0xd8] + [0x42] == [0xd8, 0x42];
    assert [] + Fill(3, 0x43) == [0x43, 0x43, 0x43];
    EopParity([], [0x43, 0x43, 0x43], 3, 6, 1);
    assert [0x42] + [] == [0x42];
    assert [0xd8, 0x42][1..] == [0x42];
    hide Print, Exec;
    assert DecodeLine([0xd8, 0x42], [], 3, 3, 0) == LineDone([0x42], [0x43, 0x43, 0x43], 1);
    assert DecodePage([0x42], [0x43, 0x43, 0x43], 3, 1) == PageOutcome([], CleanEof, []);
  }
}

module PacketWire {
  import opened Bytes
  import opened Bits
  import opened Packets
  import opened BufferedPages
  import opened Transmissions

  /** A 16-bit field is sent low byte first, and so is it read. */
  lemma LittleEndian(n: u16, low: byte, high: byte)
    ensures Little16(n)[0] == n % 256 && Little16(n)[1] == n / 256 && |Little16(n)| == 2
    ensures Little([low, high]) == low + 256 * high
  {
    assert [low, high][1..] == [high] && [high][1..] == [];
    assert Little([high]) == high + 256 * Little([]);
  }

  /** The packets without a payload, byte for byte. */
  lemma ShortPackets(status: byte)
    ensures Frame(PacketOf(AskInfo)) == [0xa1, 0xa1, 4, 0]
    ensures Frame(PacketOf(BeginData)) == [0xa1, 0xd0, 4, 0]
    ensures Frame(PacketOf(Poll(status))) == [0xa0, 0xe0, 4, 0]
    ensures Frame(PacketOf(EndPage)) == [0xa2, 0xd0, 4, 0]
  {
  }

  lemma VideoPacket(data: seq<byte>)
    requires |data| <= 0xffff - 4
    ensures var size := |data| + 4;
            Frame(PacketOf(VideoData(data))) == [0xa0, 0xc0, size % 256, size / 256] + data
  {
  }

  /** The payload of the packet that begins a page, byte by byte. */
  lemma BeginPageBytes(p: PageParams)
    ensures var s := BeginPagePayload(p);
            && s[0] == 0 && s[1] == 0 && s[2] == 0xfc && s[3] == 0x03
            && s[4] == p.paperSize && s[5] == 1 && s[6] == 1 && s[7] == 0
            && s[8] == s[9] == s[10] == s[11] == p.tonerDensity && s[12] == p.mode && s[13] == p.resolution
            && s[14] == 3 && s[15] == 1 && s[16] == 1 && s[17] == 1
            && s[18] == (if p.smoothEnable then 2 else 0) && s[19] == (if p.tonerSaving then 1 else 0)
            && s[20] == 0 && s[21] == 0
            && s[22] == p.marginLeft % 256 && s[23] == p.marginLeft / 256
            && s[24] == p.marginTop % 256 && s[25] == p.marginTop / 256
            && s[26] == p.imageLineSize % 256 && s[27] == p.imageLineSize / 256
            && s[28] == p.imageLines % 256 && s[29] == p.imageLines / 256
            && s[30] == p.paperWidth % 256 && s[31] == p.paperWidth / 256
            && s[32] == p.paperHeight % 256 && s[33] == p.paperHeight / 256
  {
  }

  lemma BeginPagePacket(p: PageParams)
    ensures Frame(PacketOf(BeginPage(p))) == [0xa0, 0xd0, 38, 0] + BeginPagePayload(p)
  {
    hide BeginPagePayload;
  }

  /** A status that lets data through has neither bit 1, not ready, nor bit 3, busy. */
  lemma StatusBits(status: byte)
    ensures And(status, NOT_READY) == 0 <==> status / 2 % 2 == 0
    ensures And(status, IM_DATA_BUSY) == 0 <==> status / 8 % 2 == 0
    ensures TakesData(status) <==> status / 2 % 2 == 0 && status / 8 % 2 == 0
  {
    hide And;
    AndNone(status / 2);
    AndNone(status / 2 / 2);
    AndNone(status / 16);
    AndDouble(status, 1);
    AndOdd(status / 2, 0);
    AndShift3(status, 1);
    AndOdd(status / 8, 0);
  }
}
