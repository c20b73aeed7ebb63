/** SCoA commands and their encoders (libcapt/Compression/ScoaCmd.cpp). */
module ScoaCmd {
  import opened Bytes
  import opened Bits
  import opened Streams

  datatype Cmd =
    | CopyLong(copy: nat)
    | CopyShort(copy: nat)
    | CopyThenRaw(copy: nat, raw: seq<byte>)
    | CopyThenRawLong(copy: nat, raw: seq<byte>)
    | CopyThenRepeat(copy: nat, count: nat, b: byte)
    | CopyThenRepeatLong(copy: nat, count: nat, b: byte)
    | RepeatThenRaw(count: nat, b: byte, raw: seq<byte>)
    | RepeatThenRawLong(count: nat, b: byte, raw: seq<byte>)
    | RepeatX(count: nat)
    | RepeatXLong(count: nat)
    | EOP
    | EOL
    | NOP

  const REPEAT_X_BYTE: byte := 0x43

  /** The range assertions of the encoders. */
  predicate InRange(c: Cmd) {
    match c
    case CopyLong(copy) => 8 <= copy <= 248 && copy % 8 == 0
    case CopyShort(copy) => 1 <= copy <= 7
    case CopyThenRaw(copy, raw) => copy <= 7 && 1 <= |raw| <= 7
    case CopyThenRawLong(copy, raw) => copy <= 7 && 8 <= |raw| <= 255
    case CopyThenRepeat(copy, count, _) => copy <= 7 && 2 <= count <= 7
    case CopyThenRepeatLong(copy, count, _) => copy <= 7 && 8 <= count <= 255
    case RepeatThenRaw(count, _, raw) => 2 <= count <= 7 && 1 <= |raw| <= 7
    case RepeatThenRawLong(count, _, raw) => 2 <= count <= 7 && 8 <= |raw| <= 255
    case RepeatX(count) => 1 <= count <= 7
    case RepeatXLong(count) => 8 <= count <= 255
    case _ => true
  }

  predicate AllInRange(cs: seq<Cmd>) {
    forall c | c in cs :: InRange(c)
  }

  // ----- opcode bytes: a two-bit class with two three-bit fields, or a three-bit class
  // with a five-bit one

  function Op(top: nat, mid: nat, low: nat): byte
    requires top < 4 && mid < 8 && low < 8
  {
    64 * top + 8 * mid + low
  }

  function Op5(top: nat, five: nat): byte
    requires top < 8 && five < 32
  {
    32 * top + five
  }

  function Top(b: byte): (r: nat)
    ensures r < 4
  {
    b / 64
  }

  function Mid(b: byte): (r: nat)
    ensures r < 8
  {
    b / 8 % 8
  }

  function Low(b: byte): (r: nat)
    ensures r < 8
  {
    b % 8
  }

  function Top5(b: byte): (r: nat)
    ensures r < 8
  {
    b / 32
  }

  function Five(b: byte): (r: nat)
    ensures r < 32
  {
    b % 32
  }

  lemma OpFields(top: nat, mid: nat, low: nat)
    requires top < 4 && mid < 8 && low < 8
    ensures var b := Op(top, mid, low);
            && Top(b) == top && Mid(b) == mid && Low(b) == low
            && (64 <= b <= 66 ==> top == 1 && mid == 0)
  {
    var b := Op(top, mid, low);
    assert b / 8 == 8 * top + mid;
  }

  lemma Op5Fields(top: nat, five: nat)
    requires top < 8 && five < 32
    ensures var b := Op5(top, five);
            Top(b) == top / 2 && Top5(b) == top && Five(b) == five && (64 <= b <= 66 ==> top == 2)
  {
  }

  lemma FieldsOp(b: byte)
    ensures b == Op(Top(b), Mid(b), Low(b))
    ensures b == Op5(Top5(b), Five(b)) && Top5(b) / 2 == Top(b)
  {
    assert b / 8 == 8 * (b / 64) + b / 8 % 8;
  }

  /** The bytes of a command. */
  function Print(c: Cmd): (s: seq<byte>)
    requires InRange(c)
    ensures |s| >= 1
  {
    match c
    case CopyLong(copy) => [Op5(4, copy / 8)]
    case CopyShort(copy) => [Op(3, 0, copy)]
    case CopyThenRaw(copy, raw) => [Op(0, |raw|, copy)] + raw
    case CopyThenRawLong(copy, raw) => [Op5(5, |raw| / 8), Op(3, |raw| % 8, copy)] + raw
    case CopyThenRepeat(copy, count, b) => [Op(1, count, copy), b]
    case CopyThenRepeatLong(copy, count, b) => [Op5(5, count / 8), Op(2, count % 8, copy), b]
    case RepeatThenRaw(count, b, raw) => [Op(3, count, |raw|), b] + raw
    case RepeatThenRawLong(count, b, raw) => [Op5(5, |raw| / 8), Op(1, count, |raw| % 8), b] + raw
    case RepeatX(count) => [Op(3, count, 0)]
    case RepeatXLong(count) => [Op5(5, count / 8), Op(0, count % 8, 0)]
    case EOP => [66]
    case EOL => [65]
    case NOP => [64]
  }

  function PrintAll(cs: seq<Cmd>): (s: seq<byte>)
    requires AllInRange(cs)
    ensures |s| >= |cs|
  {
    if cs == [] then [] else Print(cs[0]) + PrintAll(cs[1..])
  }

  lemma {:induction false} PrintAllAppend(a: seq<Cmd>, b: seq<Cmd>)
    requires AllInRange(a) && AllInRange(b)
    ensures AllInRange(a + b)
    ensures PrintAll(a + b) == PrintAll(a) + PrintAll(b)
  {
    if a == [] {
      assert a + b == b;
    } else {
      assert (a + b)[0] == a[0] && (a + b)[1..] == a[1..] + b;
      PrintAllAppend(a[1..], b);
      assert PrintAll(a + b) == Print(a[0]) + (PrintAll(a[1..]) + PrintAll(b));
    }
  }

  lemma PrintAllOne(c: Cmd)
    requires InRange(c)
    ensures PrintAll([c]) == Print(c)
  {
    assert PrintAll([c]) == Print(c) + PrintAll([]);
  }

  // ----- the encoders, bit by bit as the source packs them

  method EncodeCopyLong(buffer: ByteVector, copyCount: nat) returns (vsize: nat)
    requires InRange(CopyLong(copyCount))
    modifies buffer
    ensures buffer.bytes == old(buffer.bytes) + Print(CopyLong(copyCount))
    ensures vsize == |Print(CopyLong(copyCount))|
  {
    hide And, Or;
    AndThirtyOne(Shr3(copyCount));
    OpcodeCount(0x80, copyCount / 8);
    buffer.PushBack(U8(Or(0x80, And(Shr3(copyCount), 0x1f))));
    return 1;
  }

  method EncodeCopyShort(buffer: ByteVector, copyCount: nat) returns (vsize: nat)
    requires InRange(CopyShort(copyCount))
    modifies buffer
    ensures buffer.bytes == old(buffer.bytes) + Print(CopyShort(copyCount))
    ensures vsize == |Print(CopyShort(copyCount))|
  {
    hide And, Or;
    AndSeven(copyCount);
    OrLow3(0xc0, copyCount);
    buffer.PushBack(U8(Or(0xc0, And(copyCount, 7))));
    return 1;
  }

  method EncodeCopyThenRaw(buffer: ByteVector, copyCount: nat, rawData: seq<byte>) returns (vsize: nat)
    requires InRange(CopyThenRaw(copyCount, rawData))
    modifies buffer
    ensures buffer.bytes == old(buffer.bytes) + Print(CopyThenRaw(copyCount, rawData))
    ensures vsize == |Print(CopyThenRaw(copyCount, rawData))|
  {
    hide And, Or;
    AndSeven(|rawData|);
    AndSeven(copyCount);
    OrLow3(8 * |rawData|, copyCount);
    buffer.PushBack(U8(Or(Shl3(And(|rawData|, 7)), And(copyCount, 7))));
    buffer.Insert(rawData);
    return 1 + |rawData|;
  }

  method Extend(buffer: ByteVector, count: nat) returns (vsize: nat)
    requires 8 <= count <= 255
    modifies buffer
    ensures buffer.bytes == old(buffer.bytes) + [Op5(5, count / 8)]
    ensures vsize == 1
  {
    hide And, Or;
    AndThirtyOne(Shr3(count));
    OpcodeCount(0xa0, count / 8);
    buffer.PushBack(U8(Or(0xa0, And(Shr3(count), 0x1f))));
    return 1;
  }

  method EncodeCopyThenRawLong(buffer: ByteVector, copyCount: nat, rawData: seq<byte>) returns (vsize: nat)
    requires InRange(CopyThenRawLong(copyCount, rawData))
    modifies buffer
    ensures buffer.bytes == old(buffer.bytes) + Print(CopyThenRawLong(copyCount, rawData))
    ensures vsize == |Print(CopyThenRawLong(copyCount, rawData))|
  {
    hide And, Or;
    AndSeven(|rawData|);
    AndSeven(copyCount);
    OpcodeParts(0xc0, |rawData| % 8, copyCount);
    vsize := Extend(buffer, |rawData|);
    buffer.PushBack(U8(Or(Or(0xc0, Shl3(And(|rawData|, 7))), And(copyCount, 7))));
    buffer.Insert(rawData);
    return vsize + 1 + |rawData|;
  }

  method EncodeCopyThenRepeat(buffer: ByteVector, copyCount: nat, repeatCount: nat, repeatByte: byte)
    returns (vsize: nat)
    requires InRange(CopyThenRepeat(copyCount, repeatCount, repeatByte))
    modifies buffer
    ensures buffer.bytes == old(buffer.bytes) + Print(CopyThenRepeat(copyCount, repeatCount, repeatByte))
    ensures vsize == |Print(CopyThenRepeat(copyCount, repeatCount, repeatByte))|
  {
    hide And, Or;
    AndSeven(repeatCount);
    AndSeven(copyCount);
    OpcodeParts(0x40, repeatCount, copyCount);
    buffer.PushBack(U8(Or(Or(0x40, Shl3(And(repeatCount, 7))), And(copyCount, 7))));
    buffer.PushBack(repeatByte);
    return 2;
  }

  method EncodeCopyThenRepeatLong(buffer: ByteVector, copyCount: nat, repeatCount: nat, repeatByte: byte)
    returns (vsize: nat)
    requires InRange(CopyThenRepeatLong(copyCount, repeatCount, repeatByte))
    modifies buffer
    ensures buffer.bytes == old(buffer.bytes) + Print(CopyThenRepeatLong(copyCount, repeatCount, repeatByte))
    ensures vsize == |Print(CopyThenRepeatLong(copyCount, repeatCount, repeatByte))|
  {
    hide And, Or;
    AndSeven(repeatCount);
    AndSeven(copyCount);
    OpcodeParts(0x80, repeatCount % 8, copyCount);
    vsize := Extend(buffer, repeatCount);
    buffer.PushBack(U8(Or(Or(0x80, Shl3(And(repeatCount, 7))), And(copyCount, 7))));
    buffer.PushBack(repeatByte);
    return vsize + 2;
  }

  method EncodeRepeatThenRaw(buffer: ByteVector, repeatCount: nat, repeatByte: byte, rawData: seq<byte>)
    returns (vsize: nat)
    requires InRange(RepeatThenRaw(repeatCount, repeatByte, rawData))
    modifies buffer
    ensures buffer.bytes == old(buffer.bytes) + Print(RepeatThenRaw(repeatCount, repeatByte, rawData))
    ensures vsize == |Print(RepeatThenRaw(repeatCount, repeatByte, rawData))|
  {
    hide And, Or;
    AndSeven(repeatCount);
    AndSeven(|rawData|);
    OpcodeParts(0xc0, repeatCount, |rawData|);
    buffer.PushBack(U8(Or(Or(0xc0, Shl3(And(repeatCount, 7))), And(|rawData|, 7))));
    buffer.PushBack(repeatByte);
    buffer.Insert(rawData);
    return 2 + |rawData|;
  }

  method EncodeRepeatThenRawLong(buffer: ByteVector, repeatCount: nat, repeatByte: byte, rawData: seq<byte>)
    returns (vsize: nat)
    requires InRange(RepeatThenRawLong(repeatCount, repeatByte, rawData))
    modifies buffer
    ensures buffer.bytes == old(buffer.bytes) + Print(RepeatThenRawLong(repeatCount, repeatByte, rawData))
    ensures vsize == |Print(RepeatThenRawLong(repeatCount, repeatByte, rawData))|
  {
    hide And, Or;
    AndSeven(repeatCount);
    AndSeven(|rawData|);
    OpcodeParts(0x40, repeatCount, |rawData| % 8);
    vsize := Extend(buffer, |rawData|);
    buffer.PushBack(U8(Or(Or(0x40, Shl3(And(repeatCount, 7))), And(|rawData|, 7))));
    buffer.PushBack(repeatByte);
    buffer.Insert(rawData);
    return vsize + 2 + |rawData|;
  }

  method EncodeRepeatX(buffer: ByteVector, repeatCount: nat) returns (vsize: nat)
    requires InRange(RepeatX(repeatCount))
    modifies buffer
    ensures buffer.bytes == old(buffer.bytes) + Print(RepeatX(repeatCount))
    ensures vsize == |Print(RepeatX(repeatCount))|
  {
    hide And, Or;
    AndSeven(repeatCount);
    OrTop2(0xc0, repeatCount, 0);
    buffer.PushBack(U8(Or(0xc0, Shl3(And(repeatCount, 7)))));
    return 1;
  }

  method EncodeRepeatXLong(buffer: ByteVector, repeatCount: nat) returns (vsize: nat)
    requires InRange(RepeatXLong(repeatCount))
    modifies buffer
    ensures buffer.bytes == old(buffer.bytes) + Print(RepeatXLong(repeatCount))
    ensures vsize == |Print(RepeatXLong(repeatCount))|
  {
    hide And, Op5;
    vsize := Extend(buffer, repeatCount);
    AndSeven(repeatCount);
    var fields := U8(Shl3(And(repeatCount, 7)));
    assert fields == Op(0, repeatCount % 8, 0);
    hide Shl3, U8, Op;
    buffer.PushBack(fields);
    return vsize + 1;
  }

  method EncodeEOP(buffer: ByteVector) returns (vsize: nat)
    modifies buffer
    ensures buffer.bytes == old(buffer.bytes) + Print(EOP) && vsize == 1
  {
    buffer.PushBack(0x42);
    return 1;
  }

  method EncodeEOL(buffer: ByteVector) returns (vsize: nat)
    modifies buffer
    ensures buffer.bytes == old(buffer.bytes) + Print(EOL) && vsize == 1
  {
    buffer.PushBack(0x41);
    return 1;
  }

  method EncodeNOP(buffer: ByteVector) returns (vsize: nat)
    modifies buffer
    ensures buffer.bytes == old(buffer.bytes) + Print(NOP) && vsize == 1
  {
    buffer.PushBack(0x40);
    return 1;
  }
}
