/** The `cmd_*` helpers (libcapt/Compression/ScoaStreambuf.cpp:31-183): counts of any size are
    cut into the pieces the SCoA commands can carry. */
module ScoaSplit {
  import opened Bytes
  import opened Streams
  import opened ScoaCmd
  import opened Decoder

  /** A command that must put something on the raster. */
  predicate Plain(c: Cmd) {
    InRange(c) && c != EOP && c != EOL && c != NOP
  }

  predicate AllPlain(cs: seq<Cmd>) {
    forall c | c in cs :: Plain(c)
  }

  // ----- the pieces

  function CopyPiece(n: nat): (k: nat)
    requires n >= 8
    ensures 8 <= k <= n && k <= 248 && k % 8 == 0
  {
    Min(n, 248) - Min(n, 248) % 8
  }

  function CopyPieces(n: nat): (cs: seq<Cmd>)
    ensures AllPlain(cs)
  {
    if n < 8 then [] else [CopyLong(CopyPiece(n))] + CopyPieces(n - CopyPiece(n))
  }

  /** What the copy loop leaves. */
  function AfterCopyPieces(n: nat): (r: nat)
    ensures r == n % 8
  {
    if n < 8 then n else AfterCopyPieces(n - CopyPiece(n))
  }

  function RawPieces(copy: nat, raw: seq<byte>): (cs: seq<Cmd>)
    requires copy <= 7
    ensures copy == 0 || raw != [] ==> AllPlain(cs)
    decreases |raw|
  {
    if |raw| >= 8 then
      var k := Min(|raw|, 255);
      [CopyThenRawLong(copy, raw[..k])] + RawPieces(0, raw[k..])
    else if copy != 0 || raw != [] then [CopyThenRaw(copy, raw)]
    else []
  }

  function RepeatPieces(copy: nat, count: nat, b: byte): (cs: seq<Cmd>)
    requires copy <= 7
    ensures AllPlain(cs)
    decreases count
  {
    if count >= 8 then
      [CopyThenRepeatLong(copy, Min(count, 255), b)] + RepeatPieces(0, count - Min(count, 255), b)
    else if count >= 2 then [CopyThenRepeat(copy, count, b)]
    else if count == 1 then [CopyThenRaw(copy, [b])]
    else if copy != 0 then [CopyShort(copy)]
    else []
  }

  function RepeatXPieces(count: nat): (cs: seq<Cmd>)
    ensures AllPlain(cs)
  {
    if count >= 8 then [RepeatXLong(Min(count, 255))] + RepeatXPieces(count - Min(count, 255))
    else if count != 0 then [RepeatX(count)]
    else []
  }

  /** What a loop that takes up to 255 at a time, while there are eight, leaves. */
  function AfterRepeatPieces(count: nat): (r: nat)
    ensures r < 8
  {
    if count < 8 then count else AfterRepeatPieces(count - Min(count, 255))
  }

  // ----- the helpers

  function CopyCmds(copy: nat): (cs: seq<Cmd>)
    ensures AllPlain(cs)
  {
    CopyPieces(copy) + if copy % 8 != 0 then [CopyShort(copy % 8)] else []
  }

  function CopyThenRawCmds(copy: nat, raw: seq<byte>): (cs: seq<Cmd>)
    requires raw != []
    ensures AllPlain(cs)
  {
    CopyPieces(copy) + RawPieces(copy % 8, raw)
  }

  function CopyThenRepeatCmds(copy: nat, count: nat, b: byte): (cs: seq<Cmd>)
    ensures AllPlain(cs)
  {
    CopyPieces(copy) + RepeatPieces(copy % 8, count, b)
  }

  function RepeatCmds(count: nat, b: byte): (cs: seq<Cmd>)
    ensures AllPlain(cs)
  {
    if b == REPEAT_X_BYTE then RepeatXPieces(count) else RepeatPieces(0, count, b)
  }

  function RepeatThenRawCmds(count: nat, b: byte, raw: seq<byte>): (cs: seq<Cmd>)
    ensures AllPlain(cs)
    decreases count
  {
    if count >= 8 then
      [CopyThenRepeatLong(0, Min(count, 255), b)] + RepeatThenRawCmds(count - Min(count, 255), b, raw)
    else if count < 2 then RepeatPieces(0, count, b) + RawPieces(0, raw)
    else if raw == [] then RepeatPieces(0, count, b)
    else if |raw| <= 7 then [RepeatThenRaw(count, b, raw)]
    else
      var k := Min(|raw|, 255);
      [RepeatThenRawLong(count, b, raw[..k])] + RawPieces(0, raw[k..])
  }

  // ----- splitting keeps the meaning

  /** Copying from the sliding window in two steps is copying once. */
  lemma CopyCompose(out: seq<byte>, a: nat, b: nat, lineSize: nat)
    requires a + b <= lineSize
    ensures CopyWindow(out, a + b, lineSize) ==
            var r := CopyWindow(out, a, lineSize); if r.Err? then r else CopyWindow(r.value, b, lineSize)
  {
    if a != 0 && b != 0 && |out| >= lineSize {
      var start := |out| - lineSize;
      var mid := out + out[start..][..a];
      assert mid[|mid| - lineSize..][..b] == out[start..][a..a + b];
      assert out[start..][..a + b] == out[start..][..a] + out[start..][a..a + b];
      assert mid + out[start..][a..a + b] == out + out[start..][..a + b];
    }
  }

  lemma RunOne(c: Cmd, rest: seq<Cmd>, out: seq<byte>, lineSize: nat)
    requires lineSize >= 1
    ensures Run([c] + rest, out, lineSize) ==
            var r := Exec(c, out, lineSize); if r.Err? then r else Run(rest, r.value, lineSize)
  {
    assert ([c] + rest)[1..] == rest;
  }

  lemma {:induction false} RunCopyPieces(n: nat, out: seq<byte>, lineSize: nat)
    requires 1 <= lineSize && n <= lineSize
    ensures Run(CopyPieces(n), out, lineSize) == CopyWindow(out, n - n % 8, lineSize)
  {
    if n >= 8 {
      var k := CopyPiece(n);
      RunOne(CopyLong(k), CopyPieces(n - k), out, lineSize);
      CopyCompose(out, k, n - n % 8 - k, lineSize);
      var r := CopyWindow(out, k, lineSize);
      assert (n - k) % 8 == n % 8;
      if r.Ok? {
        RunCopyPieces(n - k, r.value, lineSize);
      }
    }
  }

  lemma {:induction false} RunRawPieces(copy: nat, raw: seq<byte>, out: seq<byte>, lineSize: nat)
    requires 1 <= lineSize && copy <= 7 && (copy == 0 || raw != [])
    ensures Run(RawPieces(copy, raw), out, lineSize) == Then(CopyWindow(out, copy, lineSize), raw)
    decreases |raw|
  {
    if |raw| >= 8 {
      var k := Min(|raw|, 255);
      var c := CopyThenRawLong(copy, raw[..k]);
      RunOne(c, RawPieces(0, raw[k..]), out, lineSize);
      var r := CopyWindow(out, copy, lineSize);
      if r.Ok? {
        RunRawPieces(0, raw[k..], r.value + raw[..k], lineSize);
        assert r.value + raw[..k] + raw[k..] == r.value + raw;
      }
    } else if copy != 0 || raw != [] {
      RunOne(CopyThenRaw(copy, raw), [], out, lineSize);
    } else {
      assert out + raw == out;
    }
  }

  lemma FillSplit(a: nat, b: nat, x: byte)
    ensures Fill(a, x) + Fill(b, x) == Fill(a + b, x)
  {
  }

  lemma {:induction false} RunRepeatPieces(copy: nat, count: nat, b: byte, out: seq<byte>, lineSize: nat)
    requires 1 <= lineSize && copy <= 7
    ensures Run(RepeatPieces(copy, count, b), out, lineSize) == Then(CopyWindow(out, copy, lineSize), Fill(count, b))
    decreases count
  {
    var r := CopyWindow(out, copy, lineSize);
    if count >= 8 {
      var k := Min(count, 255);
      RunOne(CopyThenRepeatLong(copy, k, b), RepeatPieces(0, count - k, b), out, lineSize);
      if r.Ok? {
        RunRepeatPieces(0, count - k, b, r.value + Fill(k, b), lineSize);
        FillSplit(k, count - k, b);
        assert r.value + Fill(k, b) + Fill(count - k, b) == r.value + Fill(count, b);
      }
    } else if count >= 2 {
      RunOne(CopyThenRepeat(copy, count, b), [], out, lineSize);
    } else if count == 1 {
      assert Fill(1, b) == [b];
      RunOne(CopyThenRaw(copy, [b]), [], out, lineSize);
    } else {
      assert forall s: seq<byte> :: s + Fill(0, b) == s;
      if copy != 0 {
        RunOne(CopyShort(copy), [], out, lineSize);
      }
    }
  }

  lemma {:induction false} RunRepeatXPieces(count: nat, out: seq<byte>, lineSize: nat)
    requires 1 <= lineSize
    ensures Run(RepeatXPieces(count), out, lineSize) == Ok(out + Fill(count, REPEAT_X_BYTE))
  {
    var b := REPEAT_X_BYTE;
    if count >= 8 {
      var k := Min(count, 255);
      RunOne(RepeatXLong(k), RepeatXPieces(count - k), out, lineSize);
      RunRepeatXPieces(count - k, out + Fill(k, b), lineSize);
      FillSplit(k, count - k, b);
      assert out + Fill(k, b) + Fill(count - k, b) == out + Fill(count, b);
    } else if count != 0 {
      RunOne(RepeatX(count), [], out, lineSize);
    } else {
      assert out + Fill(0, b) == out;
    }
  }

  /** A copy of any length up to a line, however it is cut. */
  lemma CopyMeaning(copy: nat, out: seq<byte>, lineSize: nat)
    requires 1 <= lineSize && copy <= lineSize
    ensures Run(CopyCmds(copy), out, lineSize) == CopyWindow(out, copy, lineSize)
  {
    RunCopyPieces(copy, out, lineSize);
    CopyCompose(out, copy - copy % 8, copy % 8, lineSize);
    var last := if copy % 8 != 0 then [CopyShort(copy % 8)] else [];
    RunAppend(CopyPieces(copy), last, out, lineSize);
    var r := CopyWindow(out, copy - copy % 8, lineSize);
    if r.Ok? && copy % 8 != 0 {
      RunOne(CopyShort(copy % 8), [], r.value, lineSize);
    }
  }

  /** A copy and then raw bytes: the commands do what one unsplit command would, and fail
      exactly as it would. */
  lemma CopyThenRawMeaning(copy: nat, raw: seq<byte>, out: seq<byte>, lineSize: nat)
    requires 1 <= lineSize && copy <= lineSize && raw != []
    ensures Run(CopyThenRawCmds(copy, raw), out, lineSize) == Then(CopyWindow(out, copy, lineSize), raw)
  {
    RunCopyPieces(copy, out, lineSize);
    CopyCompose(out, copy - copy % 8, copy % 8, lineSize);
    RunAppend(CopyPieces(copy), RawPieces(copy % 8, raw), out, lineSize);
    var r := CopyWindow(out, copy - copy % 8, lineSize);
    if r.Ok? {
      RunRawPieces(copy % 8, raw, r.value, lineSize);
    }
  }

  lemma CopyThenRepeatMeaning(copy: nat, count: nat, b: byte, out: seq<byte>, lineSize: nat)
    requires 1 <= lineSize && copy <= lineSize
    ensures Run(CopyThenRepeatCmds(copy, count, b), out, lineSize) ==
            Then(CopyWindow(out, copy, lineSize), Fill(count, b))
  {
    RunCopyPieces(copy, out, lineSize);
    CopyCompose(out, copy - copy % 8, copy % 8, lineSize);
    RunAppend(CopyPieces(copy), RepeatPieces(copy % 8, count, b), out, lineSize);
    var r := CopyWindow(out, copy - copy % 8, lineSize);
    if r.Ok? {
      RunRepeatPieces(copy % 8, count, b, r.value, lineSize);
    }
  }

  lemma RepeatMeaning(count: nat, b: byte, out: seq<byte>, lineSize: nat)
    requires 1 <= lineSize
    ensures Run(RepeatCmds(count, b), out, lineSize) == Ok(out + Fill(count, b))
  {
    if b == REPEAT_X_BYTE {
      RunRepeatXPieces(count, out, lineSize);
    } else {
      RunRepeatPieces(0, count, b, out, lineSize);
    }
  }

  lemma {:induction false} RepeatThenRawMeaning(count: nat, b: byte, raw: seq<byte>, out: seq<byte>, lineSize: nat)
    requires 1 <= lineSize
    ensures Run(RepeatThenRawCmds(count, b, raw), out, lineSize) == Ok(out + Fill(count, b) + raw)
    decreases count
  {
    var filled := out + Fill(count, b);
    if count >= 8 {
      var k := Min(count, 255);
      RunOne(CopyThenRepeatLong(0, k, b), RepeatThenRawCmds(count - k, b, raw), out, lineSize);
      RepeatThenRawMeaning(count - k, b, raw, out + Fill(k, b), lineSize);
      FillSplit(k, count - k, b);
      assert out + Fill(k, b) + Fill(count - k, b) == filled;
    } else if count < 2 {
      RunAppend(RepeatPieces(0, count, b), RawPieces(0, raw), out, lineSize);
      RunRepeatPieces(0, count, b, out, lineSize);
      RunRawPieces(0, raw, filled, lineSize);
    } else if raw == [] {
      RunRepeatPieces(0, count, b, out, lineSize);
      assert filled + raw == filled;
    } else if |raw| <= 7 {
      RunOne(RepeatThenRaw(count, b, raw), [], out, lineSize);
    } else {
      var k := Min(|raw|, 255);
      RunOne(RepeatThenRawLong(count, b, raw[..k]), RawPieces(0, raw[k..]), out, lineSize);
      RunRawPieces(0, raw[k..], filled + raw[..k], lineSize);
      assert filled + raw[..k] + raw[k..] == filled + raw;
    }
  }

  // ----- the assertions inside the helpers

  /** The assertions a call of `cmd_CopyThenRepeat` meets, its recursive call included. */
  predicate CopyThenRepeatAsserts(copy: nat, count: nat) {
    (copy != 0 || count != 0) && (copy >= 8 ==> CopyThenRepeatAsserts(AfterCopyPieces(copy), count))
  }

  /** The entry assertion lets `copy` be a multiple of eight with nothing to repeat, and then
      the recursive call's assertion fails; that family is the only one. */
  lemma CopyThenRepeatAssertsIff(copy: nat, count: nat)
    ensures CopyThenRepeatAsserts(copy, count) <==> copy % 8 != 0 || count != 0
  {
    assert copy >= 8 ==> AfterCopyPieces(copy) < 8;
  }

  predicate RepeatThenRawAsserts(count: nat, raw: seq<byte>) {
    (count != 0 || raw != []) && (count >= 8 ==> RepeatThenRawAsserts(AfterRepeatPieces(count), raw))
  }

  lemma {:induction false} AfterRepeatPiecesIs(count: nat)
    ensures AfterRepeatPieces(count) == if count % 255 < 8 then count % 255 else 0
  {
    if count >= 255 {
      AfterRepeatPiecesIs(count - 255);
      assert (count - 255) % 255 == count % 255;
    } else if count >= 8 {
      assert AfterRepeatPieces(count) == AfterRepeatPieces(0);
    }
  }

  /** With no raw bytes, the recursive call's assertion fails unless the repeat loop leaves
      between one and seven. */
  lemma RepeatThenRawAssertsIff(count: nat, raw: seq<byte>)
    ensures RepeatThenRawAsserts(count, raw) <==> raw != [] || 1 <= count % 255 <= 7
  {
    AfterRepeatPiecesIs(count);
    if count >= 8 {
      var left := AfterRepeatPieces(count);
      assert RepeatThenRawAsserts(left, raw) <==> (left != 0 || raw != []);
    }
  }

  /** Concrete calls that pass the entry assertion and fail a later one. */
  lemma EntryAssertionsDoNotSuffice()
    ensures !CopyThenRepeatAsserts(16, 0) && !RepeatThenRawAsserts(8, [])
  {
    CopyThenRepeatAssertsIff(16, 0);
    RepeatThenRawAssertsIff(8, []);
  }

  // ----- the helpers as the source runs them

  lemma PrintAllNone()
    ensures PrintAll([]) == []
  {
  }

  lemma PrintAllSnoc(cs: seq<Cmd>, c: Cmd)
    requires AllInRange(cs) && InRange(c)
    ensures AllInRange(cs + [c]) && PrintAll(cs + [c]) == PrintAll(cs) + Print(c)
  {
    PrintAllAppend(cs, [c]);
    PrintAllOne(c);
  }

  lemma CopyStep(n: nat)
    ensures n >= 8 ==> CopyPieces(n) == [CopyLong(CopyPiece(n))] + CopyPieces(n - CopyPiece(n))
    ensures n < 8 ==> CopyPieces(n) == []
  {
  }

  /** The loop three helpers begin with. */
  method EmitCopyPieces(buffer: ByteVector, copyCount: nat) returns (vsize: nat, left: nat)
    modifies buffer
    ensures buffer.bytes == old(buffer.bytes) + PrintAll(CopyPieces(copyCount))
    ensures vsize == |PrintAll(CopyPieces(copyCount))| && left == copyCount % 8
  {
    PrintAllNone();
    hide Print, PrintAll, CopyPieces;
    vsize, left := 0, copyCount;
    ghost var done: seq<Cmd> := [];
    while left >= 8
      invariant AllInRange(done) && done + CopyPieces(left) == CopyPieces(copyCount)
      invariant buffer.bytes == old(buffer.bytes) + PrintAll(done) && vsize == |buffer.bytes| - |old(buffer.bytes)|
      invariant left % 8 == copyCount % 8
    {
      var copy := Min(left, 248);
      copy := copy - copy % 8;
      var n := EncodeCopyLong(buffer, copy);
      PrintAllSnoc(done, CopyLong(copy));
      CopyStep(left);
      done := done + [CopyLong(copy)];
      vsize := vsize + n;
      left := left - copy;
    }
    CopyStep(left);
    assert done == CopyPieces(copyCount);
  }

  /** The loop over raw data, with a copy in front of its first command only. */
  method EmitRawPieces(buffer: ByteVector, copyCount: nat, rawData: seq<byte>) returns (vsize: nat)
    requires copyCount <= 7 && (copyCount == 0 || rawData != [])
    modifies buffer
    ensures buffer.bytes == old(buffer.bytes) + PrintAll(RawPieces(copyCount, rawData))
    ensures vsize == |PrintAll(RawPieces(copyCount, rawData))|
  {
    PrintAllNone();
    hide Print, PrintAll;
    vsize := 0;
    var copy, raw := copyCount, rawData;
    ghost var done: seq<Cmd> := [];
    while |raw| >= 8
      invariant copy <= 7 && (copy == 0 || raw != [])
      invariant AllInRange(done) && done + RawPieces(copy, raw) == RawPieces(copyCount, rawData)
      invariant buffer.bytes == old(buffer.bytes) + PrintAll(done) && vsize == |buffer.bytes| - |old(buffer.bytes)|
    {
      var count := Min(|raw|, 255);
      var n := EncodeCopyThenRawLong(buffer, copy, raw[..count]);
      PrintAllSnoc(done, CopyThenRawLong(copy, raw[..count]));
      assert RawPieces(copy, raw) == [CopyThenRawLong(copy, raw[..count])] + RawPieces(0, raw[count..]);
      done := done + [CopyThenRawLong(copy, raw[..count])];
      vsize := vsize + n;
      copy := 0;
      raw := raw[count..];
    }
    if copy != 0 || |raw| != 0 {
      var n := EncodeCopyThenRaw(buffer, copy, raw);
      PrintAllSnoc(done, CopyThenRaw(copy, raw));
      assert RawPieces(copy, raw) == [CopyThenRaw(copy, raw)];
      vsize := vsize + n;
    } else {
      assert done == RawPieces(copyCount, rawData);
    }
  }

  method CmdCopy(buffer: ByteVector, copyCount: nat) returns (vsize: nat)
    requires copyCount != 0
    modifies buffer
    ensures buffer.bytes == old(buffer.bytes) + PrintAll(CopyCmds(copyCount))
    ensures vsize == |PrintAll(CopyCmds(copyCount))|
  {
    PrintAllNone();
    hide Print, PrintAll;
    var left;
    vsize, left := EmitCopyPieces(buffer, copyCount);
    if left != 0 {
      var n := EncodeCopyShort(buffer, left);
      PrintAllSnoc(CopyPieces(copyCount), CopyShort(left));
      vsize := vsize + n;
    } else {
      assert CopyCmds(copyCount) == CopyPieces(copyCount);
    }
  }

  method CmdCopyThenRaw(buffer: ByteVector, copyCount: nat, rawData: seq<byte>) returns (vsize: nat)
    requires rawData != []
    modifies buffer
    ensures buffer.bytes == old(buffer.bytes) + PrintAll(CopyThenRawCmds(copyCount, rawData))
    ensures vsize == |PrintAll(CopyThenRawCmds(copyCount, rawData))|
  {
    PrintAllNone();
    hide Print, PrintAll;
    if copyCount <= 7 {
      vsize := EmitRawPieces(buffer, copyCount, rawData);
      assert CopyThenRawCmds(copyCount, rawData) == RawPieces(copyCount, rawData);
    } else {
      var left;
      vsize, left := EmitCopyPieces(buffer, copyCount);
      var n := CmdCopyThenRaw(buffer, left, rawData);
      assert CopyThenRawCmds(left, rawData) == RawPieces(left, rawData);
      PrintAllAppend(CopyPieces(copyCount), RawPieces(left, rawData));
      vsize := vsize + n;
    }
  }

  method CmdWriteRaw(buffer: ByteVector, rawData: seq<byte>) returns (vsize: nat)
    requires rawData != []
    modifies buffer
    ensures buffer.bytes == old(buffer.bytes) + PrintAll(RawPieces(0, rawData))
    ensures vsize == |PrintAll(RawPieces(0, rawData))|
  {
    PrintAllNone();
    hide Print, PrintAll;
    if |rawData| <= 7 {
      vsize := EncodeCopyThenRaw(buffer, 0, rawData);
      PrintAllOne(CopyThenRaw(0, rawData));
    } else {
      vsize := EmitRawPieces(buffer, 0, rawData);
    }
  }

  method CmdCopyThenRepeat(buffer: ByteVector, copyCount: nat, repeatCount: nat, repeatByte: byte)
    returns (vsize: nat)
    requires CopyThenRepeatAsserts(copyCount, repeatCount)
    modifies buffer
    ensures buffer.bytes == old(buffer.bytes) + PrintAll(CopyThenRepeatCmds(copyCount, repeatCount, repeatByte))
    ensures vsize == |PrintAll(CopyThenRepeatCmds(copyCount, repeatCount, repeatByte))|
  {
    PrintAllNone();
    hide Print, PrintAll;
    if copyCount <= 7 {
      vsize := EmitRepeatPieces(buffer, copyCount, repeatCount, repeatByte);
      assert CopyThenRepeatCmds(copyCount, repeatCount, repeatByte)
          == RepeatPieces(copyCount, repeatCount, repeatByte);
    } else {
      var left;
      vsize, left := EmitCopyPieces(buffer, copyCount);
      assert left == AfterCopyPieces(copyCount);
      var n := CmdCopyThenRepeat(buffer, left, repeatCount, repeatByte);
      assert CopyThenRepeatCmds(left, repeatCount, repeatByte) == RepeatPieces(left, repeatCount, repeatByte);
      PrintAllAppend(CopyPieces(copyCount), RepeatPieces(left, repeatCount, repeatByte));
      vsize := vsize + n;
    }
  }

  lemma RepeatPiecesStep(copy: nat, count: nat, b: byte)
    requires copy <= 7 && count >= 8
    ensures var rep := Min(count, 255);
            RepeatPieces(copy, count, b) == [CopyThenRepeatLong(copy, rep, b)] + RepeatPieces(0, count - rep, b)
  {
  }

  method EmitRepeatPieces(buffer: ByteVector, copyCount: nat, repeatCount: nat, repeatByte: byte)
    returns (vsize: nat)
    requires copyCount <= 7
    modifies buffer
    ensures buffer.bytes == old(buffer.bytes) + PrintAll(RepeatPieces(copyCount, repeatCount, repeatByte))
    ensures vsize == |PrintAll(RepeatPieces(copyCount, repeatCount, repeatByte))|
  {
    PrintAllNone();
    hide Print, PrintAll, RepeatPieces;
    vsize := 0;
    var copy, count, b := copyCount, repeatCount, repeatByte;
    ghost var done: seq<Cmd> := [];
    while count >= 8
      invariant copy <= 7
      invariant AllInRange(done) && done + RepeatPieces(copy, count, b) == RepeatPieces(copyCount, repeatCount, b)
      invariant buffer.bytes == old(buffer.bytes) + PrintAll(done) && vsize == |buffer.bytes| - |old(buffer.bytes)|
    {
      var rep := Min(count, 255);
      var n := EncodeCopyThenRepeatLong(buffer, copy, rep, b);
      PrintAllSnoc(done, CopyThenRepeatLong(copy, rep, b));
      RepeatPiecesStep(copy, count, b);
      Assoc(done, [CopyThenRepeatLong(copy, rep, b)], RepeatPieces(0, count - rep, b));
      done := done + [CopyThenRepeatLong(copy, rep, b)];
      vsize := vsize + n;
      copy := 0;
      count := count - rep;
    }
    PrintAllAppend(done, RepeatPieces(copy, count, b));
    var n := EmitLastRepeat(buffer, copy, count, b);
    vsize := vsize + n;
  }

  /** The end of `cmd_CopyThenRepeat`: what the loop over long repeats leaves. */
  method EmitLastRepeat(buffer: ByteVector, copyCount: nat, repeatCount: nat, repeatByte: byte)
    returns (vsize: nat)
    requires copyCount <= 7 && repeatCount <= 7
    modifies buffer
    ensures buffer.bytes == old(buffer.bytes) + PrintAll(RepeatPieces(copyCount, repeatCount, repeatByte))
    ensures vsize == |buffer.bytes| - |old(buffer.bytes)|
  {
    PrintAllNone();
    hide Print, PrintAll;
    vsize := 0;
    if repeatCount >= 2 {
      vsize := EncodeCopyThenRepeat(buffer, copyCount, repeatCount, repeatByte);
      PrintAllOne(CopyThenRepeat(copyCount, repeatCount, repeatByte));
    } else if repeatCount == 1 {
      vsize := EncodeCopyThenRaw(buffer, copyCount, [repeatByte]);
      PrintAllOne(CopyThenRaw(copyCount, [repeatByte]));
    } else if copyCount != 0 {
      vsize := EncodeCopyShort(buffer, copyCount);
      PrintAllOne(CopyShort(copyCount));
    }
  }

  lemma RepeatXStep(count: nat)
    ensures count >= 8 ==>
              RepeatXPieces(count) == [RepeatXLong(Min(count, 255))] + RepeatXPieces(count - Min(count, 255))
    ensures count < 8 ==> RepeatXPieces(count) == if count == 0 then [] else [RepeatX(count)]
  {
  }

  method CmdRepeatX(buffer: ByteVector, repeatCount: nat) returns (vsize: nat)
    requires repeatCount != 0
    modifies buffer
    ensures buffer.bytes == old(buffer.bytes) + PrintAll(RepeatXPieces(repeatCount))
    ensures vsize == |PrintAll(RepeatXPieces(repeatCount))|
  {
    PrintAllNone();
    hide Print, PrintAll, RepeatXPieces;
    vsize := 0;
    var count := repeatCount;
    ghost var done: seq<Cmd> := [];
    while count >= 8
      invariant AllInRange(done) && done + RepeatXPieces(count) == RepeatXPieces(repeatCount)
      invariant buffer.bytes == old(buffer.bytes) + PrintAll(done) && vsize == |buffer.bytes| - |old(buffer.bytes)|
    {
      var rep := Min(count, 255);
      var n := EncodeRepeatXLong(buffer, rep);
      PrintAllSnoc(done, RepeatXLong(rep));
      RepeatXStep(count);
      done := done + [RepeatXLong(rep)];
      vsize := vsize + n;
      count := count - rep;
    }
    RepeatXStep(count);
    if count != 0 {
      var n := EncodeRepeatX(buffer, count);
      PrintAllSnoc(done, RepeatX(count));
      vsize := vsize + n;
    } else {
      assert done == RepeatXPieces(repeatCount);
    }
  }

  method CmdRepeat(buffer: ByteVector, repeatCount: nat, repeatByte: byte) returns (vsize: nat)
    requires repeatCount != 0
    modifies buffer
    ensures buffer.bytes == old(buffer.bytes) + PrintAll(RepeatCmds(repeatCount, repeatByte))
    ensures vsize == |PrintAll(RepeatCmds(repeatCount, repeatByte))|
  {
    PrintAllNone();
    hide Print, PrintAll;
    if repeatByte == REPEAT_X_BYTE {
      vsize := CmdRepeatX(buffer, repeatCount);
    } else {
      vsize := CmdCopyThenRepeat(buffer, 0, repeatCount, repeatByte);
      assert CopyThenRepeatCmds(0, repeatCount, repeatByte) == RepeatPieces(0, repeatCount, repeatByte);
    }
  }

  lemma RepeatThenRawStep(count: nat, b: byte, raw: seq<byte>)
    requires count >= 8
    ensures var rep := Min(count, 255);
            && RepeatThenRawCmds(count, b, raw) ==
               [CopyThenRepeatLong(0, rep, b)] + RepeatThenRawCmds(count - rep, b, raw)
            && AfterRepeatPieces(count - rep) == AfterRepeatPieces(count)
  {
  }

  method CmdRepeatThenRaw(buffer: ByteVector, repeatCount: nat, repeatByte: byte, rawData: seq<byte>)
    returns (vsize: nat)
    requires RepeatThenRawAsserts(repeatCount, rawData)
    modifies buffer
    ensures buffer.bytes == old(buffer.bytes) + PrintAll(RepeatThenRawCmds(repeatCount, repeatByte, rawData))
    ensures vsize == |PrintAll(RepeatThenRawCmds(repeatCount, repeatByte, rawData))|
    decreases repeatCount
  {
    PrintAllNone();
    hide Print, PrintAll, RepeatThenRawCmds;
    if repeatCount <= 7 {
      vsize := CmdShortRepeatThenRaw(buffer, repeatCount, repeatByte, rawData);
      return;
    }
    vsize := 0;
    var count, b := repeatCount, repeatByte;
    ghost var done: seq<Cmd> := [];
    while count >= 8
      invariant 0 <= count <= repeatCount && AfterRepeatPieces(count) == AfterRepeatPieces(repeatCount)
      invariant AllInRange(done)
      invariant done + RepeatThenRawCmds(count, b, rawData) == RepeatThenRawCmds(repeatCount, b, rawData)
      invariant buffer.bytes == old(buffer.bytes) + PrintAll(done) && vsize == |buffer.bytes| - |old(buffer.bytes)|
    {
      var rep := Min(count, 255);
      var n := EncodeCopyThenRepeatLong(buffer, 0, rep, b);
      PrintAllSnoc(done, CopyThenRepeatLong(0, rep, b));
      RepeatThenRawStep(count, b, rawData);
      Assoc(done, [CopyThenRepeatLong(0, rep, b)], RepeatThenRawCmds(count - rep, b, rawData));
      done := done + [CopyThenRepeatLong(0, rep, b)];
      vsize := vsize + n;
      count := count - rep;
    }
    var n := CmdRepeatThenRaw(buffer, count, b, rawData);
    PrintAllAppend(done, RepeatThenRawCmds(count, b, rawData));
    vsize := vsize + n;
  }

  /** The commands for a repeat that fits one, case by case. */
  lemma ShortRepeatThenRaw(count: nat, b: byte, raw: seq<byte>)
    requires count <= 7
    ensures CopyThenRepeatCmds(0, count, b) == RepeatPieces(0, count, b)
    ensures count == 0 ==> RepeatPieces(0, count, b) == []
    ensures RepeatThenRawCmds(count, b, raw) ==
            if raw == [] then RepeatPieces(0, count, b)
            else if count < 2 then RepeatPieces(0, count, b) + RawPieces(0, raw)
            else if |raw| <= 7 then [RepeatThenRaw(count, b, raw)]
            else
              var k := Min(|raw|, 255);
              [RepeatThenRawLong(count, b, raw[..k])] + RawPieces(0, raw[k..])
  {
    assert RepeatPieces(0, count, b) + [] == RepeatPieces(0, count, b);
  }

  /** The branch of `cmd_RepeatThenRaw` for a repeat that fits one command. */
  method CmdShortRepeatThenRaw(buffer: ByteVector, repeatCount: nat, repeatByte: byte, rawData: seq<byte>)
    returns (vsize: nat)
    requires repeatCount <= 7 && (repeatCount != 0 || rawData != [])
    modifies buffer
    ensures buffer.bytes == old(buffer.bytes) + PrintAll(RepeatThenRawCmds(repeatCount, repeatByte, rawData))
    ensures vsize == |PrintAll(RepeatThenRawCmds(repeatCount, repeatByte, rawData))|
  {
    hide Print, PrintAll, RepeatThenRawCmds, RepeatPieces, RawPieces, CopyThenRepeatCmds;
    PrintAllNone();
    var b, raw := repeatByte, rawData;
    ShortRepeatThenRaw(repeatCount, b, raw);
    if |raw| <= 7 && |raw| == 0 {
      vsize := CmdCopyThenRepeat(buffer, 0, repeatCount, b);
    } else if |raw| <= 7 && repeatCount >= 2 {
      vsize := EncodeRepeatThenRaw(buffer, repeatCount, b, raw);
      PrintAllOne(RepeatThenRaw(repeatCount, b, raw));
    } else if repeatCount >= 2 {
      var count := Min(|raw|, 255);
      vsize := EncodeRepeatThenRawLong(buffer, repeatCount, b, raw[..count]);
      PrintAllOne(RepeatThenRawLong(repeatCount, b, raw[..count]));
      var n := EmitRawPieces(buffer, 0, raw[count..]);
      PrintAllAppend([RepeatThenRawLong(repeatCount, b, raw[..count])], RawPieces(0, raw[count..]));
      vsize := vsize + n;
    } else {
      vsize := 0;
      if repeatCount != 0 {
        vsize := CmdCopyThenRepeat(buffer, 0, repeatCount, b);
      }
      assert buffer.bytes == old(buffer.bytes) + PrintAll(RepeatPieces(0, repeatCount, b));
      PrintAllAppend(RepeatPieces(0, repeatCount, b), RawPieces(0, raw));
      var n := EmitRawPieces(buffer, 0, raw);
      vsize := vsize + n;
    }
  }
}
