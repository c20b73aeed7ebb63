# Verified model of libcapt

libcapt drives Canon laser printers that speak CAPT and take pages compressed with SCoA.
This project models its logic in Dafny and proves what the library is for: that a page which
goes through the compression, the packets and the retry loop is the page that comes out.

The parts, from the inside out:

- **The SCoA codec.** A line is cut into segments by a one-lookahead machine (`ScoaState.dfy`),
  pairs of segments are turned into commands and long counts are split (`ScoaSplit.dfy`,
  `ScoaStreambuf.dfy`), commands become bytes (`ScoaCmd.dfy`), and an independent decoder
  reads them back (`Decoder.dfy` says what it should do, `DecoderStreambuf.dfy` is the class
  that does it). `Codec.dfy` puts the two sides together; `Expansion.dfy` bounds the size.
- **The stream adaptors.** `CropStreambuf.dfy` cuts margins off a stream of pages, and
  `BufferedPage.dfy` keeps a page so that it can be sent again.
- **The wire.** `Wire.dfy` says in plain numbers what the bytes of the SCoA stream and of the packets
  mean, independently of the functions that make them.
- **The protocol.** `Packets.dfy` frames and reads packets, `CaptPrinter.dfy` sends a page to a
  printer that may answer anything, and `PrintJob.dfy` is the page loop with its reprints.
- **Whole jobs.** `VideoData.dfy` finds the pages among the packets of a job, `Job.dfy` proves
  the law of the whole chain, and `JobRun.dfy` runs compressor and decoder against each other.

Objects of the source are classes with its fields, its loops are loops, and every such method
is proved against a function (`Encode`, `DecodePage`, `Cropped`, `Frames`, ...), about which the
laws are then proved. Bytes are the numbers 0 to 255; bit operations are defined bit by bit.

## Main results

1. `Codec.CodecRoundTrip`: every raster with at least one line of at least one byte comes back
   from its SCoA stream, followed by a clean end-of-file, and nothing after the stream is
   touched. `Codec.AnySource` says what happens for *every* source and line count, including
   sources that end early.
2. `Jobs.JobComesBack`, `Jobs.SentJobDecodes` and `JobRun.CompressAndDecode`: a whole job of pages of
   any sizes, in blocks of any sizes, decodes to its pages exactly when each page has its full raster
   and sizes that fit 16 bits. `Jobs.JobRoundTrip` says what it decodes to otherwise, as long as the
   line sizes fit.
3. `PrintJobs.PrintEnv.PrintPages` with `PrintJobs.JobOrder` and `PrintedPages.PrintedJobDecodes`: the
   print loop does what the job and the printer's answers ask for, and nothing else: which page is sent
   next follows from the answers alone, the page before exactly when the printer wants it again, and no
   try begins after a stop. When it ends well and no stop was requested, the pages went out whole and in
   order, and the printer has accepted the last; and, for a printer with a block size, everything that
   ever went out whole, reprints included, decodes to the raster of its page.
4. `Expansion.LineExpansion` with `LineExpansionTight`: a line of n bytes takes at most
   n + (n + 10) / 9 bytes, and for every n but zero some line takes as many.
5. `ScoaStates.ScoaState.Get` with `Segments.TilesIff`: the incremental segmenter produces the one
   and only list of canonical segments that tiles the line.
6. `CropStreambufs.CropStreambuf` with `Cropping.CropPages`; `BufferedPages.BufferedPage`;
   `Packets.Drive`: the cursor machines refine plain streams over any sequence of calls.

## What the code does that its own description does not say

- `cmd_CopyThenRepeat` and `cmd_RepeatThenRaw` call themselves with what is left of the counts,
  and the entry assertion can fail in that second call although it held in the first: for
  example with a copy of 16 and no repeat, or a repeat of 8 and no raw bytes. `ScoaSplit`
  gives the exact condition; `nextCmd` always meets it.
- The final `cmd_Copy` of `nextCmd` is never reached: a Copy that is not the end of the line always
  has a segment after it.
- The decoder ignores the three low bits of the second byte of a long RepeatX, so these commands
  have eight spellings; every other command has one.
- A decoded page reports its end once: reading on after it starts on whatever follows.
- With no lines to encode there is no EOP, and decoding such a stream fails.
- A printer that reports a block size of zero makes `WriteVideoData` send no data and report
  success, as `CaptPrinters.ZeroBlockSize` shows; a reported block size over 65531 fails its assertion.
- In `discardLines` the test for a discarded count of zero cannot succeed, since reading
  end-of-file counts as one.
- Move assignment of a `BufferedPage` keeps the target's own source, and would append it to the bytes
  moved in; the program only ever assigns to a page without a source.
- A page header with a line size of zero decodes to an empty page; one with no lines fails an
  assertion.
- The compressor keeps only the low 16 bits of a page's line size and line count in the header. With
  another line count decoding fails, and `Jobs.Outcome` says how; with another line size it cannot
  give the page back (`Jobs.WrongLineSize`).
- A block of video data with no bytes would make the test decoder read past its buffer
  (`VideoDataStreambufs.Shown.PastBuffer`). The library never sends one.

## Model

| member | source | states |
|---|---|---|
| Bits.OpcodeFields | libcapt/Compression/Decoder/DecoderStreambuf.cpp:86-157 | The decoder's masks and shifts of an opcode byte are its bit fields, for every byte |
| Bits.OpcodeParts | libcapt/Compression/ScoaCmd.cpp:23-118 | The encoder's OR of shifted, masked fields is their sum: the fields never overlap |
| Bits.OpcodeCount | libcapt/Compression/ScoaCmd.cpp:6-74 | A count's high five bits go into the opcode unchanged |
| ScoaCmd.EncodeCopyLong | libcapt/Compression/ScoaCmd.cpp:6-13 | Appends exactly the bytes of this command, for a multiple of 8 from 8 to 248, and returns their number |
| ScoaCmd.EncodeCopyShort | libcapt/Compression/ScoaCmd.cpp:15-21 | Appends exactly the bytes of this command and returns their number |
| ScoaCmd.EncodeCopyThenRaw | libcapt/Compression/ScoaCmd.cpp:23-32 | Appends exactly the bytes of this command and returns their number |
| ScoaCmd.EncodeCopyThenRawLong | libcapt/Compression/ScoaCmd.cpp:34-44 | Appends exactly the bytes of this command, Extend included, and returns their number |
| ScoaCmd.EncodeCopyThenRepeat | libcapt/Compression/ScoaCmd.cpp:46-55 | Appends exactly the bytes of this command and returns their number |
| ScoaCmd.EncodeCopyThenRepeatLong | libcapt/Compression/ScoaCmd.cpp:57-67 | Appends exactly the bytes of this command, Extend included, and returns their number |
| ScoaCmd.Extend | libcapt/Compression/ScoaCmd.cpp:69-74 | Appends the Extend byte of a count |
| ScoaCmd.EncodeRepeatThenRaw | libcapt/Compression/ScoaCmd.cpp:76-87 | Appends exactly the bytes of this command and returns their number |
| ScoaCmd.EncodeRepeatThenRawLong | libcapt/Compression/ScoaCmd.cpp:89-101 | Appends exactly the bytes of this command, Extend included, and returns their number |
| ScoaCmd.EncodeRepeatX | libcapt/Compression/ScoaCmd.cpp:103-109 | Appends exactly the bytes of this command and returns their number |
| ScoaCmd.EncodeRepeatXLong | libcapt/Compression/ScoaCmd.cpp:111-118 | Appends exactly the bytes of this command, Extend included, and returns their number |
| ScoaCmd.EncodeEOP | libcapt/Compression/ScoaCmd.cpp:120-123 | Appends the end-of-page command |
| ScoaCmd.EncodeEOL | libcapt/Compression/ScoaCmd.cpp:125-128 | Appends the end-of-line command |
| ScoaCmd.EncodeNOP | libcapt/Compression/ScoaCmd.cpp:130-133 | Appends the padding command |
| Decoder.ParsePrint | libcapt/Compression/Decoder/DecoderStreambuf.cpp:73-185 | The command codec: every command with arguments in range, followed by any bytes, is read back as itself, and exactly its own bytes are taken; so no two opcode classes collide |
| Decoder.PrintParse | libcapt/Compression/Decoder/DecoderStreambuf.cpp:73-185 | The converse: whatever the decoder accepts is a command printed, but for the low bits of a long RepeatX, and only for them |
| ScoaWire.WireMarkers | libcapt/Compression/Decoder/DecoderStreambuf.cpp:75-84 | Bytes 0x40, 0x41 and 0x42 and their effect, encoder and decoder alike |
| ScoaWire.WireRepeatX | libcapt/Compression/Decoder/DecoderStreambuf.cpp:163-167 | Byte 0xc0 + 8n appends n bytes 0x43, and is what the encoder writes for that |
| ScoaWire.WireRepeatXLong | libcapt/Compression/Decoder/DecoderStreambuf.cpp:85-94 | Bytes 0xa0 + n / 8 and 8 (n % 8) append n bytes 0x43, and are what the encoder writes for that |
| ScoaWire.WireCopyShort | libcapt/Compression/Decoder/DecoderStreambuf.cpp:159-162 | Byte 0xc0 + n copies n bytes |
| ScoaWire.WireCopyLong | libcapt/Compression/Decoder/DecoderStreambuf.cpp:129-134 | Byte 0x80 + m copies 8m bytes |
| ScoaWire.WireCopyThenRaw | libcapt/Compression/Decoder/DecoderStreambuf.cpp:145-155 | Byte 8r + c copies c bytes and appends the r that follow |
| ScoaWire.WireCopyThenRawLong | libcapt/Compression/Decoder/DecoderStreambuf.cpp:117-128 | The bytes of the long form and their effect |
| ScoaWire.WireCopyThenRepeat | libcapt/Compression/Decoder/DecoderStreambuf.cpp:135-144 | Byte 0x40 + 8n + c copies c bytes and repeats the next n times |
| ScoaWire.WireCopyThenRepeatLong | libcapt/Compression/Decoder/DecoderStreambuf.cpp:95-104 | The bytes of the long form and their effect |
| ScoaWire.WireRepeatThenRaw | libcapt/Compression/Decoder/DecoderStreambuf.cpp:168-178 | Byte 0xc0 + 8n + r repeats the next byte n times and appends the r that follow |
| ScoaWire.WireRepeatThenRawLong | libcapt/Compression/Decoder/DecoderStreambuf.cpp:105-116 | The bytes of the long form and their effect |
| ScoaWire.EopParity | libcapt/Compression/Decoder/DecoderStreambuf.cpp:190-199 | 0x42 ends the page after an odd number of command bytes, and is refused after an even number |
| ScoaWire.ReadmeExample | README.md:88-90 | 0x6A 0x12 copies two bytes from the previous line and repeats 0x12 five times |
| ScoaWire.SpecialByte | libcapt/Compression/Decoder/DecoderStreambuf.cpp:46-48 | The stream 0xD8 0x42 is a line of three bytes 0x43 |
| Decoder.ExecGrows | libcapt/Compression/Decoder/DecoderStreambuf.cpp:39-71 | A command only appends, and all but NOP and EOP append something |
| Decoder.RunAppend | libcapt/Compression/Decoder/DecoderStreambuf.cpp:187-201 | Commands one after the other compose, errors included |
| DecoderStreambufs.DecoderStreambuf.MustGet | libcapt/Compression/Decoder/DecoderStreambuf.cpp:19-26 | Takes a byte, or reports the unexpected end |
| DecoderStreambufs.DecoderStreambuf.MustRead | libcapt/Compression/Decoder/DecoderStreambuf.cpp:28-34 | Takes exactly the bytes asked for, or reports the unexpected end |
| DecoderStreambufs.DecoderStreambuf.CopyBytes | libcapt/Compression/Decoder/DecoderStreambuf.cpp:50-59 | Appends the bytes of the window that starts one line before the end |
| DecoderStreambufs.DecoderStreambuf.EndLine | libcapt/Compression/Decoder/DecoderStreambuf.cpp:68-71 | Copies the rest of the line |
| DecoderStreambufs.DecoderStreambuf.DecodeNext | libcapt/Compression/Decoder/DecoderStreambuf.cpp:73-185 | The nest of mask tests does one command: parses as specified, with the same effect and the same error, in the same order |
| DecoderStreambufs.DecoderStreambuf.DecodeLine | libcapt/Compression/Decoder/DecoderStreambuf.cpp:187-201 | The loop over commands, with its tally and the parity check, refines the specified line decoding |
| DecoderStreambufs.DecoderStreambuf.Underflow | libcapt/Compression/Decoder/DecoderStreambuf.cpp:203-216 | Shows the first byte of the newly decoded line, or ends the page and starts a new tally |
| DecoderStreambufs.DecoderStreambuf.Refill | libcapt/Compression/Decoder/DecoderStreambuf.cpp:203-216 | Making the next byte available loses none of the page, and ends or throws exactly when nothing is left of it |
| DecoderStreambufs.DecoderStreambuf.Sgetn | tests/Compression/decoder.cpp:111-118 | Over any sequence of reads the decoder is a plain stream of the page; a read past its end comes up short after a clean end, and throws after any other |
| DecoderStreambufs.DecoderStreambuf.Drain | tests/Compression/decoder.cpp:111-118 | Reading line by line to the end gives the rest of the page and its ending |
| ScoaSplit.CopyCompose | libcapt/Compression/Decoder/DecoderStreambuf.cpp:50-59 | Copying a then b bytes is copying a + b bytes, when they fit a line |
| ScoaSplit.CopyMeaning | libcapt/Compression/ScoaStreambuf.cpp:31-44 | However a copy is cut up, it has the effect of one copy |
| ScoaSplit.CopyThenRawMeaning | libcapt/Compression/ScoaStreambuf.cpp:46-87 | However copy and raw bytes are cut up, they have the effect of one copy and the bytes |
| ScoaSplit.CopyThenRepeatMeaning | libcapt/Compression/ScoaStreambuf.cpp:89-116 | However copy and repeat are cut up, they have the effect of one copy and one repeat, remainders 0 and 1 included |
| ScoaSplit.RepeatMeaning | libcapt/Compression/ScoaStreambuf.cpp:118-138 | However a repeat is cut up, with the special byte or without, it has the effect of one repeat |
| ScoaSplit.RepeatThenRawMeaning | libcapt/Compression/ScoaStreambuf.cpp:140-183 | However repeat and raw bytes are cut up, they have the effect of one repeat and the bytes |
| ScoaSplit.CopyThenRepeatAssertsIff | libcapt/Compression/ScoaStreambuf.cpp:89-116 | The assertions of the call and of its call of itself hold if and only if there is a repeat, or the copy is no multiple of 8 |
| ScoaSplit.RepeatThenRawAssertsIff | libcapt/Compression/ScoaStreambuf.cpp:140-183 | The assertions hold if and only if there are raw bytes, or the repeat leaves 1 to 7 modulo 255 |
| ScoaSplit.EntryAssertionsDoNotSuffice | libcapt/Compression/ScoaStreambuf.cpp:89-183 | Concrete calls that pass the entry assertion and fail in the second call |
| ScoaSplit.CmdCopy | libcapt/Compression/ScoaStreambuf.cpp:31-44 | The loop appends exactly the bytes of the specified pieces, with every piece in range |
| ScoaSplit.CmdCopyThenRaw | libcapt/Compression/ScoaStreambuf.cpp:46-69 | The loops and the recursion append exactly the specified pieces, with every piece in range |
| ScoaSplit.CmdWriteRaw | libcapt/Compression/ScoaStreambuf.cpp:71-87 | Appends exactly the specified pieces, with every piece in range |
| ScoaSplit.CmdCopyThenRepeat | libcapt/Compression/ScoaStreambuf.cpp:89-116 | Under the exact condition on its assertions, appends exactly the specified pieces, with every piece in range |
| ScoaSplit.CmdRepeatX | libcapt/Compression/ScoaStreambuf.cpp:118-130 | The loop appends exactly the specified pieces, with every piece in range |
| ScoaSplit.CmdRepeat | libcapt/Compression/ScoaStreambuf.cpp:132-138 | Uses the special command for its byte and the general one for others |
| ScoaSplit.CmdRepeatThenRaw | libcapt/Compression/ScoaStreambuf.cpp:140-183 | Under the exact condition on its assertions, appends exactly the specified pieces, with every piece in range |
| Segments.SegmentUnique | libcapt/Compression/ScoaState.hpp:17-41 | At most one segment begins at a byte |
| Segments.TilesIff | tests/Core/ScoaStateTest.cpp:32-59 | A list of segments tiles the line if and only if it is the list of longest runs |
| Segments.Neighbours | libcapt/Compression/ScoaState.hpp:17-41 | No two Copy or two Raw segments meet, and no Repeat could go on |
| Segments.SegmentsCover | tests/Core/ScoaStateTest.cpp:40-58 | The segments' bytes one after the other are the line |
| ScoaStates.ScoaState.constructor | libcapt/Compression/ScoaState.hpp:43-45 | All the segments of the line are to come |
| ScoaStates.ScoaState.NextFunc | libcapt/Compression/ScoaState.hpp:17-41 | One byte either joins the growing segment or finishes it as a segment that cannot be longer, with one byte taken back from a Raw that turns out to begin a Repeat |
| ScoaStates.ScoaState.Next | libcapt/Compression/ScoaState.hpp:62-81 | Moves on by exactly one segment, the held-back one at the end included, and terminates |
| ScoaStates.ScoaState.Get | libcapt/Compression/ScoaState.hpp:52-56 | Returns each canonical segment once, in order |
| ScoaStates.ScoaState.Empty | libcapt/Compression/ScoaState.hpp:58-60 | True exactly when no segment is to come |
| ScoaStreambufs.FirstTwo | libcapt/Compression/ScoaStreambuf.cpp:185-212 | The assertions of `nextCmd`, and why its last return for a Copy is dead |
| ScoaStreambufs.NextCmd | libcapt/Compression/ScoaStreambuf.cpp:185-212 | Takes one or two segments and appends exactly their commands; the unreachable return is proved unreachable |
| ScoaStreambufs.EncodeLine | libcapt/Compression/ScoaStreambuf.cpp:230-233 | The loop appends exactly the line's commands and adds exactly their bytes to the tally |
| ScoaStreambufs.ScoaStreambuf.FromRaster | libcapt/Compression/ScoaStreambuf.cpp:17-20 | The whole SCoA stream of the raster is to come, and the source will be left where the page ends in it |
| ScoaStreambufs.ScoaStreambuf.Reset | libcapt/Compression/ScoaStreambuf.cpp:22-29 | Makes a used encoder as good as new, also onto the same source, although the old previous line stays in its buffer |
| ScoaStreambufs.ScoaStreambuf.Underflow | libcapt/Compression/ScoaStreambuf.cpp:214-250 | Line by line, with swapped buffers and the tally as first-line flag, delivers exactly the specified stream; takes exactly one line of the source where a new one is needed, and nothing otherwise |
| ScoaStreambufs.ScoaStreambuf.EmitFinish | libcapt/Compression/ScoaStreambuf.cpp:239-244 | Appends the padding when needed, and the EOP |
| ScoaStreambufs.FinishBytes | libcapt/Compression/ScoaStreambuf.cpp:239-244 | The end of a page is 0x42, after one 0x40 exactly when the tally is even |
| ScoaStreambufs.ScoaStreambuf.Sgetn | tests/Compression/compressor.cpp:86-92 | Over any sequence of reads the encoder is a plain stream of the specified bytes; after a read that comes up short the source stands where the page ends |
| Codec.Window | libcapt/Compression/Decoder/DecoderStreambuf.cpp:50-59 | Inside a line, the decoder's window shows the encoder's previous line at the same place |
| Codec.FirstCmdsMeaning | libcapt/Compression/ScoaStreambuf.cpp:185-212 | The commands of each group of segments extend the decoded raster exactly to where the group ends |
| Codec.LineMeaning | libcapt/Compression/ScoaStreambuf.cpp:228-236 | The commands of a line, run after a raster that ends with the previous line, append the line |
| Codec.LineProductive | libcapt/Compression/ScoaStreambuf.cpp:185-233 | No command of a line is NOP or EOP, and all are in range |
| Codec.RunGrows | libcapt/Compression/Decoder/DecoderStreambuf.cpp:187-201 | Every command of a line yields at least a byte |
| Codec.DecodePrinted | libcapt/Compression/Decoder/DecoderStreambuf.cpp:187-201 | The line decoder stops exactly after the commands that fill the line |
| Codec.Lockstep | libcapt/Compression/ScoaStreambuf.cpp:228-236 | Over one line: the line comes out, the decoder stops just after it, both tallies agree, and the last bytes decoded are the encoder's next previous line |
| Codec.FinishDecodes | libcapt/Compression/ScoaStreambuf.cpp:239-244 | Padding and EOP pass the decoder's parity check whatever the tally |
| Codec.PageDecodes | libcapt/Compression/ScoaStreambuf.cpp:214-250 | From any point between two lines, for any source: what is still to be sent decodes to the lines still to be read |
| Codec.CodecRoundTrip | README.md:84-127 | Compressing and decompressing any raster gives it back, with a clean end and with exactly its own bytes used |
| Codec.AnySource | tests/Core/ScoaStreambufTest.cpp:34-63 | A source that ends early gives its whole lines and then the unexpected end; the end is clean exactly when there are lines and all are there |
| Codec.EvenSize | libcapt/Compression/ScoaStreambuf.cpp:239-244 | A complete page's stream has an even number of bytes |
| Codec.SourceLeftIs | libcapt/Compression/ScoaStreambuf.cpp:219-226 | After a page the source stands exactly lines times line size further, or is used up if it had less |
| Codec.EncodePrefix | libcapt/Compression/ScoaStreambuf.cpp:214-250 | What follows a page's raster in the source has no part in its stream |
| Codec.TruncatedHasNoEop | libcapt/Compression/ScoaStreambuf.cpp:223-226 | A source that ends early leaves line commands only: no EOP and no padding |
| CodecRun.ReadAll | tests/Compression/compressor.cpp:86-92 | Reading the encoder in blocks of any size gives its whole stream, and leaves the source where the page ends |
| CodecRun.CompressAndDecode | tests/Core/ScoaStreambufTest.cpp:10-32 | The two classes run against each other give back every raster, or the whole lines of one that ends early |
| Expansion.CmdsBound | libcapt/Compression/ScoaStreambuf.cpp:31-212 | From any segment on, the size bound with its allowance for a Raw segment that stands alone |
| Expansion.LoneRaw | libcapt/Compression/ScoaStreambuf.cpp:185-212 | A group that begins with Raw comes only at the start of the line or after Copy and Repeat |
| Expansion.LineExpansion | libcapt/Compression/ScoaStreambuf.cpp:31-212 | A line of n bytes takes at most n + (n + 10) / 9, hence at most n + n / 9 + 2, bytes |
| Expansion.LineExpansionTight | libcapt/Compression/ScoaStreambuf.cpp:31-212 | For every length but zero, a line that takes exactly n + (n + 10) / 9 bytes |
| Cropping.CroppedPart | libcapt/Utility/CropStreambuf.cpp:70-73 | Reading part of a kept line splits what is to come at that byte |
| Cropping.CropPages | tests/Core/CropStreambufTest.cpp:33-58 | The kept bytes of a run of pages are the kept lines of each page, in order |
| Cropping.PositionStep | libcapt/Utility/CropStreambuf.cpp:33-40 | Skipping a margin leads exactly to the next kept line, on the next page after the last |
| Cropping.AtPageEnd | libcapt/Utility/CropStreambuf.cpp:22-40 | When all kept bytes of m pages are out, page, line and column are those of the start of the next |
| CropStreambufs.Discard | libcapt/Utility/CropStreambuf.cpp:9-20 | Takes the bytes off and counts a read of end-of-file as one |
| CropStreambufs.CropStreambuf.PagesDone | libcapt/Utility/CropStreambuf.cpp:33-40 | After the kept bytes of m pages the source is exactly at the end of the m-th page |
| CropStreambufs.CropStreambuf.DiscardLines | libcapt/Utility/CropStreambuf.cpp:22-31 | Moves the source to the end of the page |
| CropStreambufs.CropStreambuf.EndLine | libcapt/Utility/CropStreambuf.cpp:33-40 | Moves the source over the margin, and over the rest of the page after the last kept line |
| CropStreambufs.CropStreambuf.ReadInLine | libcapt/Utility/CropStreambuf.cpp:70-77 | One read inside a line delivers the next kept bytes and keeps source and counters in step |
| CropStreambufs.CropStreambuf.Xsgetn | libcapt/Utility/CropStreambuf.cpp:55-78 | The read-size law, and that what is delivered is exactly the next of the kept bytes; loop and recursion terminate |
| CropStreambufs.CropStreambuf.Sbumpc | libcapt/Utility/CropStreambuf.cpp:47-53 | Takes the next kept byte |
| CropStreambufs.CropStreambuf.Sgetc | libcapt/Utility/CropStreambuf.cpp:42-45 | Shows the next kept byte |
| BufferedPages.BufferedPage.constructor | libcapt/Utility/BufferedPage.cpp:51-52 | The page is the whole of its source |
| BufferedPages.BufferedPage.Moved | libcapt/Utility/BufferedPage.cpp:54-58 | A moved page replays what had been read, and is complete if and only if nothing was left to read |
| BufferedPages.BufferedPage.MoveFrom | libcapt/Utility/BufferedPage.cpp:60-69 | The target keeps its own source after the bytes moved in |
| BufferedPages.BufferedPage.Underflow | libcapt/Utility/BufferedPage.cpp:9-27 | Grows the buffer by the next of the source; the page as a whole never changes |
| BufferedPages.BufferedPage.Sgetn | libcapt/BasicCaptPrinter.hpp:103-106 | Reads are those of a cursor over the whole page; one that comes up short has all of it buffered |
| BufferedPages.BufferedPage.Seekpos | libcapt/Utility/BufferedPage.cpp:29-35 | Moves the cursor, and nothing else |
| BufferedPages.BufferedPage.Seekoff | libcapt/Utility/BufferedPage.cpp:37-49 | Moves the cursor, from each of the three bases |
| Packets.WriteTo | libcapt/Core/PacketHeader.cpp:6-18 | Appends one frame, or refuses and writes nothing when the size does not fit |
| Packets.ParseFrame | libcapt/Core/PacketHeader.cpp:20-31 | Header and payload of a frame are read back from it, whatever follows |
| Packets.FramesAppend | libcapt/Core/PacketHeader.cpp:6-18 | Frames written one after the other concatenate |
| Packets.UnframeFrames | libcapt/Core/PacketHeader.cpp:6-31 | Any list of packets comes back from its bytes |
| Packets.StreamPacket.MoveFrom | libcapt/Core/StreamPacket.cpp:13-26 | The packet being read changes hands, and the old owner can discard nothing |
| Packets.StreamPacket.ReadInt | libcapt/Core/StreamPacket.hpp:34-42 | Reads a little-endian number inside the packet, or refuses and takes nothing |
| Packets.StreamPacket.ReadBytes | libcapt/Core/StreamPacket.cpp:28-35 | Reads bytes inside the packet, or refuses and takes nothing |
| Packets.StreamPacket.Discard | libcapt/Core/StreamPacket.cpp:37-48 | Skips exactly what is left of the packet |
| Packets.StreamPacket.Extract | libcapt/Core/StreamPacket.cpp:50-56 | Skips the rest of the packet and reads the next header, or the failure; after an impossible size the packet stays on the stream it was on |
| Packets.StreamPacket.Next | libcapt/Core/StreamPacket.cpp:50-56 | Before well-formed packets, a new packet object or one in the middle of a packet lands on the next one and reads its opcode and size |
| Packets.Use | libcapt/Core/StreamPacket.cpp:9-48 | Any use of a packet short of `>>`, a move and the end of the object moved from included, leaves the stream before the same packets |
| Packets.Drive | libcapt/Core/StreamPacket.cpp:9-56 | Over any packets and any pattern of reads, over-long reads, discards and moves to other objects, the k-th `>>` gives the k-th header |
| PacketWire.LittleEndian | libcapt/Core/PacketHeader.cpp:14-22 | 16-bit fields go low byte first, written and read |
| PacketWire.ShortPackets | libcapt/Protocol/Protocol.cpp:54-115 | IC_BEGIN_DATA, IC_END_PAGE and the two questions, byte for byte |
| PacketWire.VideoPacket | libcapt/Protocol/Protocol.cpp:62-64 | IC_VIDEO_DATA, byte for byte |
| PacketWire.BeginPageBytes | libcapt/Protocol/Protocol.cpp:23-52 | The payload of IC_BEGIN_PAGE, byte by byte |
| PacketWire.BeginPagePacket | libcapt/Protocol/Protocol.cpp:23-52 | Its header: opcode 0xD0A0 and 38 bytes |
| PacketWire.StatusBits | libcapt/Protocol/Enums.hpp:9-14 | Not ready is bit 1 and busy is bit 3 of a status, for every status |
| Transmissions.BlocksAre | libcapt/BasicCaptPrinter.hpp:102-120 | What is sent of a page is the beginning of its stream, in blocks full but for the last, each right after a poll that showed a ready printer with room; any other poll is followed by a poll, and none by anything if it showed a printer not ready |
| CaptPrinters.CaptPrinter.AwaitReady | libcapt/BasicCaptPrinter.hpp:107-115 | Polls until an answer shows a ready printer with room or one not ready, or a stop is requested, and gives up only where the printer's answers end; every poll before the last showed a busy printer |
| CaptPrinters.CaptPrinter.WriteVideoData | libcapt/BasicCaptPrinter.hpp:93-123 | For every printer: IC_BEGIN_PAGE, IC_BEGIN_DATA, polls and full blocks that make up the beginning of the page's stream, and IC_END_PAGE if and only if it returns true, and then the blocks are all of it; false only for a stop or a printer not ready, cut off only where the answers end, every answer used where it came; with a block size of zero, no block at all and success |
| CaptPrinters.CaptPrinter.SendBlock | libcapt/BasicCaptPrinter.hpp:107-119 | The next block of the stream is sent only right after a poll that allows it and a last look at the token |
| CaptPrinters.ZeroBlockSize | libcapt/BasicCaptPrinter.hpp:93-123 | A printer that reports blocks of size zero: whatever the page, the bytes on the wire hold none of it, and the call reports success |
| PrintJobs.PrintEnv.Send | examples/printpbm.cpp:183-193 | Every try starts at the page's first byte, however far tries before it got, and is cut off only where the printer's answers end |
| PrintJobs.PrintEnv.AfterFailure | examples/printpbm.cpp:200-208 | After a failed try the printer's next answer alone decides: an end, the page again, or the page before |
| PrintJobs.PrintEnv.Pass | examples/printpbm.cpp:181-210 | One turn of the retry loop does the one thing that is to be done next, and ends the loop exactly when nothing is |
| PrintJobs.PrintEnv.WritePage | examples/printpbm.cpp:178-212 | For every printer: the tries made are those that its answers ask for, success without a stop means the reprints asked for and then this page once, each whole, and every other try sent the beginning of its page |
| PrintJobs.PrintEnv.WaitLastPage | examples/printpbm.cpp:214-232 | Success without a stop means that the printer's last answer showed neither an error nor a reprint, and that each answer before was followed by a try; only the last page goes out, once whole for each answer to the wait that asked for it |
| PrintJobs.PrintEnv.AwaitLastEnd | examples/printpbm.cpp:216-226 | The printer's next answer alone decides whether the last page is accepted, rejected or to be sent again |
| PrintJobs.PrintEnv.Keep | examples/printpbm.cpp:281 | The page just sent can be sent again from the copy, without its source |
| PrintJobs.PrintEnv.PrintPages | examples/printpbm.cpp:267-288 | The whole job is a run of `JobStep` over the printer's answers, all of them used in order: it ends well without a stop exactly at the printer's acceptance of the last page; every entry of the log is what was sent or heard |
| PrintJobs.JobOrder | examples/printpbm.cpp:267-288 | Whatever the printer answers, a run of `JobStep` sends the pages whole in order, each at least once, and again only before the next |
| PrintJobs.PageOrder | examples/printpbm.cpp:178-212 | Whatever the printer answers, until a page is out only reprints of the one before it are |
| PrintJobs.LastOrder | examples/printpbm.cpp:214-232 | The wait for the last page ends with an acceptance, and answers and tries alternate before it |
| PrintJobs.JobPage | examples/printpbm.cpp:267-288 | The sending of one page is a part of the job's run |
| PrintJobs.InOrderHasAll | examples/printpbm.cpp:269-283 | An ordered job leaves no page out |
| PrintedPages.PrintedPageDecodes | examples/printpbm.cpp:267-288 | Whatever went out whole, the first time or again, decodes to the page's raster and sizes |
| PrintedPages.PrintedJobDecodes | examples/printpbm.cpp:267-288 | Of the log of a whole job: everything that went out whole, reprints included, decodes to exactly the page that the log says it is |
| Depacketising.FetchedMore | tests/Compression/decoder.cpp:21-50 | Reading any part of a block takes exactly the packets up to that block |
| VideoDataStreambufs.VideoDataStreambuf.ReadHeader | tests/Compression/decoder.cpp:55-73 | Finds the next page's packet and its two sizes, or reports a short one, or the end, a stream that is already bad included |
| VideoDataStreambufs.VideoDataStreambuf.ReadSizes | tests/Compression/decoder.cpp:59-69 | The two sizes are little-endian at bytes 26 and 28 of the payload |
| VideoDataStreambufs.VideoDataStreambuf.FetchBlock | tests/Compression/decoder.cpp:30-45 | The loop over packets finds the next block, or the packet that ends the page |
| VideoDataStreambufs.VideoDataStreambuf.Underflow | tests/Compression/decoder.cpp:21-50 | Shows the next byte of the page's stream, out of the block in hand or of the next one; shows the end, or the read past an empty block |
| VideoDataStreambufs.VideoDataStreambuf.Refill | tests/Compression/decoder.cpp:21-50 | Making the next byte available loses none of the page's video, and fetches a block only when the last is used up |
| VideoDataStreambufs.VideoDataStreambuf.Sgetn | tests/Compression/decoder.cpp:21-50 | Over any sequence of reads, inside blocks or across them, the reader is a plain stream of the page's video, and no packet is read before its first byte is wanted |
| Jobs.VideoAppend | tests/Compression/decoder.cpp:21-50 | The stream of packets one after the other is the one stream after the other |
| Jobs.LeftWithin | tests/Compression/decoder.cpp:55-73 | However far a page's stream has been read, the next header found is that of the next page |
| Jobs.HeaderFound | libcapt/Protocol/Protocol.cpp:23-52 | The sizes written into IC_BEGIN_PAGE are those read out of it |
| Jobs.FirstPage | tests/Compression/decoder.cpp:98-127 | What becomes of a page of a job, with its exact failure when it has one |
| Jobs.JobRoundTrip | tests/Compression/decoder.cpp:98-127 | Any job whose line sizes fit the header, in any blocks, decodes to what `Outcome` says, errors included |
| Jobs.OutcomeIsJob | tests/Compression/compressor.cpp:62-95 | That outcome is the job unchanged if and only if every page has its full raster and a line count that fits 16 bits |
| Jobs.WrongLineSize | tests/Compression/compressor.cpp:77-79 | A line size over 65535 never comes back |
| Jobs.OnePage | tests/Compression/decoder.cpp:98-127 | A page of any size comes back at the front of a job if and only if it can be sent and the rest comes back |
| Jobs.JobComesBack | tests/Compression/compressor.cpp:62-95 | A job of pages of any sizes, in any blocks, comes back unchanged if and only if every page has its full raster and sizes that fit 16 bits |
| Jobs.BlocksCarry | libcapt/BasicCaptPrinter.hpp:102-120 | The blocks the driver sends, as packets, hold exactly the bytes it sent |
| Jobs.TransmissionCarries | libcapt/BasicCaptPrinter.hpp:93-123 | A complete transmission, as packets, carries the page |
| Jobs.SentJobDecodes | libcapt/BasicCaptPrinter.hpp:93-123 | A job the driver transmitted completely, with any polls and any block size, decodes to its pages if and only if they can be sent |
| JobRun.Compress | tests/Compression/compressor.cpp:61-95 | One encoder reset for each page, onto one source that holds the rasters in a row, writes well-formed packets that carry every page in blocks of 4096 bytes, and leaves the source behind the last raster |
| JobRun.CompressPage | tests/Compression/compressor.cpp:75-93 | One page: its header with the low 16 bits of its sizes, its stream in full blocks, its end; the source is left where the page ends in it |
| JobRun.PagesFromRasters | tests/Compression/compressor.cpp:65-95 | Pages whose full rasters follow each other in one source are found again |
| JobRun.ReadLine | tests/Compression/decoder.cpp:112-117 | One read of a line: what the decoder takes is what the reader of the packets delivers, and no packet is read before it is needed |
| JobRun.DecodeVideo | tests/Compression/decoder.cpp:108-125 | The loop over lines and the check of the size give the specified page, with exactly the packets read that the decoder needed |
| JobRun.ReadPage | tests/Compression/decoder.cpp:99-126 | One turn of the decoder's loop refines the specified step, down to which packets are gone after it |
| JobRun.DecodePages | tests/Compression/decoder.cpp:98-127 | The decoder program refines the specified job decoding, for every job |
| JobRun.CompressAndDecode | tests/Compression/compressor.cpp:61-95 | Compressor and decoder run in sequence, on one source and pages of any sizes, give the job itself if and only if all its pages can be sent, and the specified outcome if the line sizes fit |

## Left out

- Stream plumbing: `FileStreambuf`, flushing, stream state beyond one `good` flag, exceptions set on streams, command logs and error texts. Streams are byte strings with a cursor, and end-of-file is final.
- Virtual calls between stream classes: an encoder, a crop or a page is proved to deliver a given string of bytes, and its reader is modelled over a plain stream of that string. `JobRun.LookAhead` therefore finds the decoder's input on a copy of the job; line by line, `JobRun.ReadLine` then has the reader of the packets deliver the very bytes that the decoder took.
- Copying past the window: where `copy` is asked for more than a line, the source reads past its vector; the model stops with an error of its own, `CopyPastWindow`. No stream of the encoder gets there.
- Memory and machine integers: capacity, iterators, truncation of read lengths and line counts to 32 bits, byte order of the host. Counts are mathematical integers; the fields of 16 bits and the bytes are modelled as such.
- Lines of no bytes: the encoder's and the segmenter's line size is at least one, as their assertions need.
- ScoaStreambufs.ScoaStreambuf.Reset: requires that the page before has been read to its end, because the source does not reset its get area.
- BufferedPages.BufferedPage.Seekpos: positions outside the buffer are excluded, since the source does not check them.
- BufferedPages.BufferedPage.Seekoff: positions outside the buffer are excluded, since the source does not check them.
- BufferedPages.BufferedPage.MoveFrom: says nothing of the get area of the page moved from, which the source leaves behind.
- VideoDataStreambufs.VideoDataStreambuf.Sgetn: the packets hold no empty block, past which the source reads what is not there; so too for `VideoDataStreambufs.VideoDataStreambuf.Refill`.
- JobRun.ReadPage: the packets hold no empty block.
- JobRun.DecodePages: the packets hold no empty block.
- Jobs.FirstPage: line sizes over 65535 are not covered; `Jobs.WrongLineSize` and `Jobs.OnePage` cover them.
- Jobs.JobRoundTrip: line sizes over 65535 are not covered, as the stream is then decoded with another line size; that such a job does not come back is `Jobs.JobComesBack`.
- Jobs.OutcomeIsJob: line sizes over 65535 are not covered; `Jobs.JobComesBack` covers them.
- CaptPrinters.CaptPrinter.WriteVideoData: the printer's answers are a finite list, and a run that uses them up is cut off; nothing is said about whether a printer ever becomes ready. A run is cut off only there. Malformed answers, for which the source throws, end a run the same way.
- PrintJobs.PrintEnv.WritePage: the packets of `prepareBeforePrint` and `WaitPrintEnd` are not in the trace; of these only the stop they may report and the status they end with matter. Sleeps and messages are left out.
- PrintJobs.PrintEnv.PrintPages: each page comes with a stream of its own, where the source compresses all of them from one file; reading the file and its headers is left out, as is what surrounds the loop.
- Stop tokens: a token answers "no" any number of times and then "yes" for good; signals and atomics are left out.
- PBM headers, `Crop.hpp`, `PacketBuilder`, `PacketReader`, `ExtendedStatus` and the one-packet wrappers of `Protocol.cpp`: straight-line reading and writing of fields, with no state between calls.
- The scripts, the build and the other example programs.
