/** CAPT packets (libcapt/Core/PacketHeader.cpp, StreamPacket.cpp and StreamPacket.hpp). */
module Packets {
  import opened Bytes
  import opened Streams

  datatype Packet = Packet(opcode: nat, payload: seq<byte>)

  /** A packet `WriteTo` can write: its sizes fit the two 16-bit fields. */
  predicate Writable(p: Packet) {
    p.opcode <= 0xffff && 4 + |p.payload| <= 0xffff
  }

  predicate AllWritable(ps: seq<Packet>) {
    forall i | 0 <= i < |ps| :: Writable(ps[i])
  }

  function Little16(n: nat): seq<byte>
    requires n <= 0xffff
  {
    [n % 256, n / 256]
  }

  /** The value of bytes in little-endian order. */
  function Little(s: seq<byte>): nat {
    if s == [] then 0 else s[0] + 256 * Little(s[1..])
  }

  lemma LittleOf16(n: nat, rest: seq<byte>)
    requires n <= 0xffff
    ensures Little((Little16(n) + rest)[..2]) == n
  {
    var s := (Little16(n) + rest)[..2];
    assert s == Little16(n) && s[1..] == [n / 256] && s[1..][1..] == [];
    assert Little(s[1..]) == n / 256;
  }

  function Frame(p: Packet): seq<byte>
    requires Writable(p)
  {
    Little16(p.opcode) + Little16(4 + |p.payload|) + p.payload
  }

  function Frames(ps: seq<Packet>): seq<byte>
    requires AllWritable(ps)
  {
    if ps == [] then [] else Frame(ps[0]) + Frames(ps[1..])
  }

  lemma {:induction false} FramesAppend(a: seq<Packet>, b: seq<Packet>)
    requires AllWritable(a) && AllWritable(b)
    ensures AllWritable(a + b) && Frames(a + b) == Frames(a) + Frames(b)
  {
    hide Frame, Writable;
    if a == [] {
      assert a + b == b;
    } else {
      assert (a + b)[0] == a[0] && (a + b)[1..] == a[1..] + b;
      FramesAppend(a[1..], b);
      Assoc(Frame(a[0]), Frames(a[1..]), Frames(b));
    }
  }

  lemma FramesOne(p: Packet)
    requires Writable(p)
    ensures AllWritable([p]) && Frames([p]) == Frame(p)
  {
    assert Frames([p]) == Frame(p) + Frames([p][1..]);
  }

  datatype PacketError = SizeOverflow | ImpossibleSize | PayloadEnd

  /** `PacketHeader::WriteTo`. */
  method WriteTo(out: ByteVector, opcode: nat, payload: seq<byte>) returns (r: Result<(), PacketError>)
    requires opcode <= 0xffff
    modifies out
    ensures if Writable(Packet(opcode, payload))
            then r.Ok? && out.bytes == old(out.bytes) + Frame(Packet(opcode, payload))
            else r == Err(SizeOverflow) && out.bytes == old(out.bytes)
  {
    var size := 4 + |payload|;
    if size > 0xffff {
      return Err(SizeOverflow);
    }
    out.Insert(Little16(opcode));
    out.Insert(Little16(size));
    out.Insert(payload);
    return Ok(());
  }

  /** `ReadLittle`; of a value cut short by the end of the stream nothing is known. */
  method ReadLittle(stream: ByteStream, size: nat) returns (value: nat)
    requires stream.Valid()
    modifies stream
    ensures stream.Valid()
    ensures old(stream.good) && size <= |old(stream.Rest())| ==>
              value == Little(old(stream.Rest())[..size]) && stream.Rest() == old(stream.Rest())[size..]
    ensures stream.good == (old(stream.good) && size <= |old(stream.Rest())|)
  {
    if !stream.good {
      return 0;
    }
    var bytes := stream.Read(size);
    value := Little(bytes);
  }

  /** What the next header on a stream is. */
  datatype HeaderRead = NoHeader | BadHeader | Header(opcode: nat, payloadSize: nat)

  function ParseHeader(s: seq<byte>): HeaderRead {
    if |s| < 4 then NoHeader
    else if Little(s[2..4]) < 4 then BadHeader
    else Header(Little(s[..2]), Little(s[2..4]) - 4)
  }

  lemma ParseFrame(p: Packet, rest: seq<byte>)
    requires Writable(p)
    ensures ParseHeader(Frame(p) + rest) == Header(p.opcode, |p.payload|)
    ensures (Frame(p) + rest)[4..] == p.payload + rest
  {
    var s := Frame(p) + rest;
    assert s == Little16(p.opcode) + (Little16(4 + |p.payload|) + (p.payload + rest));
    LittleOf16(p.opcode, Little16(4 + |p.payload|) + (p.payload + rest));
    LittleOf16(4 + |p.payload|, p.payload + rest);
    assert s[2..4] == (Little16(4 + |p.payload|) + (p.payload + rest))[..2];
  }

  /** The packets a byte string is made of, if it is made of packets. */
  function Unframe(s: seq<byte>): Option<seq<Packet>>
    decreases |s|
  {
    if s == [] then Some([])
    else
      match ParseHeader(s)
      case Header(opcode, size) =>
        if |s| < 4 + size then None
        else
          var rest := Unframe(s[4 + size..]);
          if rest == None then None else Some([Packet(opcode, s[4..4 + size])] + rest.value)
      case _ => None
  }

  /** Writing packets and reading them back. */
  lemma {:induction false} UnframeFrames(ps: seq<Packet>)
    requires AllWritable(ps)
    ensures Unframe(Frames(ps)) == Some(ps)
  {
    if ps != [] {
      var p, rest := ps[0], Frames(ps[1..]);
      var s := Frame(p) + rest;
      ParseFrame(p, rest);
      assert s != [];
      assert s[4..][|p.payload|..] == rest && s[4..][..|p.payload|] == p.payload;
      hide Frame, ParseHeader;
      assert s[4 + |p.payload|..] == rest && s[4..4 + |p.payload|] == p.payload;
      UnframeFrames(ps[1..]);
      assert ps == [p] + ps[1..];
    }
  }

  class StreamPacket {
    var stream: ByteStream?
    var remain: nat
    var opcode: nat
    var payloadSize: nat

    ghost predicate Valid()
      reads this, stream
    {
      stream != null ==> stream.Valid()
    }

    /** The stream is `remain` bytes before the packets `ps`. */
    ghost predicate Before(ps: seq<Packet>)
      reads this, stream
      requires AllWritable(ps)
    {
      && stream != null && stream.Valid() && stream.good
      && remain <= |stream.Rest()| && stream.Rest()[remain..] == Frames(ps)
    }

    /** The header of the first of `ps` has been read, and nothing after it. */
    ghost predicate At(ps: seq<Packet>)
      reads this, stream
      requires AllWritable(ps) && ps != []
    {
      && Before(ps[1..])
      && opcode == ps[0].opcode && payloadSize == remain == |ps[0].payload|
      && stream.Rest() == ps[0].payload + Frames(ps[1..])
    }

    constructor ()
      ensures Valid() && stream == null && remain == 0
    {
      stream, remain, opcode, payloadSize := null, 0, 0, 0;
    }

    /** The move constructor and move assignment: the packet being read changes hands. */
    method MoveFrom(other: StreamPacket)
      requires other != this && other.Valid()
      modifies this, other
      ensures Valid() && stream == old(other.stream) && remain == old(other.remain)
      ensures opcode == old(other.opcode) && payloadSize == old(other.payloadSize)
      ensures other.stream == null && other.remain == 0
    {
      stream, remain := other.stream, other.remain;
      opcode, payloadSize := other.opcode, other.payloadSize;
      other.stream, other.remain := null, 0;
    }

    /** An integer of `size` bytes; past the end of the payload it throws and nothing is read. */
    method ReadInt(size: nat) returns (r: Result<nat, PacketError>)
      requires stream != null && Valid()
      modifies this`remain, stream
      ensures Valid() && stream.good == (old(stream.good) && (old(remain) < size || size <= |old(stream.Rest())|))
      ensures old(remain) < size ==>
                r == Err(PayloadEnd) && remain == old(remain) && stream.Rest() == old(stream.Rest())
      ensures old(remain) >= size ==> r.Ok? && remain == old(remain) - size
      ensures old(remain) >= size && stream.good ==>
                r == Ok(Little(old(stream.Rest())[..size])) && stream.Rest() == old(stream.Rest())[size..]
    {
      if remain < size {
        return Err(PayloadEnd);
      }
      remain := remain - size;
      var value := ReadLittle(stream, size);
      return Ok(value);
    }

    /** `ReadBytes`; past the end of the payload it throws and nothing is read. */
    method ReadBytes(n: nat) returns (r: Result<seq<byte>, PacketError>)
      requires stream != null && Valid()
      modifies this`remain, stream
      ensures Valid() && stream.good == (old(stream.good) && (old(remain) < n || n <= |old(stream.Rest())|))
      ensures old(remain) < n ==> r == Err(PayloadEnd) && remain == old(remain) && stream.Rest() == old(stream.Rest())
      ensures old(remain) >= n ==> r.Ok? && remain == old(remain) - n
      ensures old(remain) >= n && stream.good ==>
                r == Ok(old(stream.Rest())[..n]) && stream.Rest() == old(stream.Rest())[n..]
    {
      if n > remain {
        return Err(PayloadEnd);
      }
      var bytes := stream.Read(n);
      remain := remain - n;
      return Ok(bytes);
    }

    /** Skips what is left of the payload; the destructor does this too. */
    method Discard()
      requires Valid()
      modifies this`remain, if stream != null then {stream} else {}
      ensures Valid() && remain == 0
      ensures stream != null ==> stream.good == old(stream.good)
      ensures stream != null && stream.good ==>
                stream.Rest() == old(stream.Rest())[Min(old(remain), |old(stream.Rest())|)..]
      ensures stream != null && !stream.good ==> stream.Rest() == old(stream.Rest())
    {
      if remain == 0 {
        return;
      }
      if stream != null && stream.good {
        for i := 0 to remain
          invariant stream.Valid() && stream.good
          invariant stream.Rest() == old(stream.Rest())[Min(i, |old(stream.Rest())|)..]
        {
          var c := stream.Sbumpc();
        }
      }
      remain := 0;
    }

    /** `stream >> packet`: to the next packet's header, whatever was left of this one. */
    method Extract(stream: ByteStream) returns (r: Result<(), PacketError>)
      requires Valid() && stream.Valid() && (this.stream == null || this.stream == stream)
      modifies this, stream
      ensures Valid() && stream.Valid() && this.stream == if r.Ok? then stream else old(this.stream)
      ensures old(stream.good) ==>
                var skip := if old(this.stream) == null then 0 else Min(old(remain), |old(stream.Rest())|);
                var rest := old(stream.Rest())[skip..];
                match ParseHeader(rest)
                case NoHeader => r.Ok? && !stream.good
                case BadHeader => r == Err(ImpossibleSize) && remain == 0 && stream.Rest() == rest[4..]
                case Header(op, size) =>
                  && r.Ok? && stream.good && stream.Rest() == rest[4..]
                  && opcode == op && payloadSize == size && remain == size
      ensures !old(stream.good) ==> r.Ok? && !stream.good
      ensures r.Ok? ==> remain == payloadSize && (!stream.good ==> payloadSize == old(payloadSize))
    {
      Discard();
      ghost var rest := stream.Rest();
      opcode := ReadLittle(stream, 2);
      var size := ReadLittle(stream, 2);
      assert stream.good ==> rest[2..][..2] == rest[2..4];
      if stream.good && size < 4 {
        return Err(ImpossibleSize);
      }
      if stream.good {
        payloadSize := size - 4;
      }
      remain := payloadSize;
      this.stream := stream;
      return Ok(());
    }

    /** In front of well-formed packets, `>>` lands on the next one and reads its header: on a new
        packet object, and on one in the middle of a packet. */
    method Next(stream: ByteStream, ghost ps: seq<Packet>) returns (r: Result<(), PacketError>)
      requires AllWritable(ps)
      requires if this.stream == null then stream.Valid() && stream.good && stream.Rest() == Frames(ps)
               else this.stream == stream && Before(ps)
      modifies this, stream
      ensures Valid() && this.stream == stream && r.Ok?
      ensures stream.good <==> ps != []
      ensures ps != [] ==> At(ps)
    {
      if ps != [] {
        ParseFrame(ps[0], Frames(ps[1..]));
      }
      hide ParseHeader, Frame;
      NoFrame();
      r := Extract(stream);
    }
  }

  lemma NoFrame()
    ensures ParseHeader([]) == NoHeader
  {
  }

  // ----- any use of a packet stream

  /** What a caller may do with a packet: read from it, read too much, skip the rest, move
      it to another object, go on. */
  datatype Op = TakeInt(size: nat) | TakeBytes(n: nat) | Skip | Move | GoOn

  function GoOns(ops: seq<Op>): nat {
    if ops == [] then 0 else (if ops[0] == GoOn then 1 else 0) + GoOns(ops[1..])
  }

  lemma {:induction false} GoOnsStep(ops: seq<Op>, i: nat)
    requires i < |ops|
    ensures GoOns(ops[..i + 1]) == GoOns(ops[..i]) + if ops[i] == GoOn then 1 else 0
  {
    if i == 0 {
      assert ops[..1] == [ops[0]] && ops[..0] == [];
      assert GoOns([ops[0]]) == (if ops[0] == GoOn then 1 else 0) + GoOns([ops[0]][1..]);
    } else {
      GoOnsStep(ops[1..], i - 1);
      assert ops[..i + 1][1..] == ops[1..][..i] && ops[..i][1..] == ops[1..][..i - 1];
    }
  }

  function Headers(ps: seq<Packet>): seq<(nat, nat)> {
    seq(|ps|, i requires 0 <= i < |ps| => (ps[i].opcode, |ps[i].payload|))
  }

  lemma HeadersNone()
    ensures Headers([]) == []
  {
  }

  lemma HeadersSnoc(ps: seq<Packet>, k: nat)
    requires k < |ps|
    ensures Headers(ps[..k + 1]) == Headers(ps[..k]) + [(ps[k].opcode, |ps[k].payload|)]
  {
  }

  /** Any use of a packet short of `>>` leaves the stream in front of the same packets. A packet that
      has moved lives on in another object, and the end of the old one takes nothing. */
  method Use(packet: StreamPacket, op: Op, ghost ps: seq<Packet>) returns (packet': StreamPacket)
    requires AllWritable(ps) && op != GoOn
    requires packet.stream != null && packet.Valid() && (packet.stream.good ==> packet.Before(ps))
    modifies packet, packet.stream
    ensures packet' == packet || fresh(packet')
    ensures packet'.stream == old(packet.stream) && packet'.Valid()
    ensures packet'.stream.good == old(packet.stream.good) && (packet'.stream.good ==> packet'.Before(ps))
  {
    hide Frames;
    packet' := packet;
    match op {
      case TakeInt(size) => var r := packet.ReadInt(size);
      case TakeBytes(n) => var r := packet.ReadBytes(n);
      case Skip => packet.Discard();
      case Move =>
        packet' := new StreamPacket();
        packet'.MoveFrom(packet);
        packet.Discard();
    }
  }

  /** `>>`, if there is another packet. */
  method GoOnwards(packet: StreamPacket, stream: ByteStream, ghost ps: seq<Packet>) returns (taken: bool)
    requires AllWritable(ps) && packet.stream == stream && packet.Valid() && (stream.good ==> packet.Before(ps))
    modifies packet, stream
    ensures packet.stream == stream && packet.Valid()
    ensures taken == stream.good == (old(stream.good) && ps != [])
    ensures taken ==> packet.Before(ps[1..]) && (packet.opcode, packet.payloadSize) == (ps[0].opcode, |ps[0].payload|)
  {
    hide Frames, Frame, ParseHeader;
    if stream.good {
      var r := packet.Next(stream, ps);
    } else {
      var r := packet.Extract(stream);
    }
    taken := stream.good;
  }

  /** Framing stays in sync: over any packets and any pattern of reads, over-long reads, discards
      and moves, the k-th `>>` gives the k-th packet's opcode and size. */
  method Drive(ps: seq<Packet>, ops: seq<Op>) returns (headers: seq<(nat, nat)>)
    requires AllWritable(ps)
    ensures headers == Headers(ps[..Min(GoOns(ops), |ps|)])
  {
    hide Frames, Frame, Headers;
    HeadersNone();
    var stream := new ByteStream(Frames(ps));
    var packet := new StreamPacket();
    packet.stream := stream;
    headers := [];
    var k: nat := 0;
    assert ps[0..] == ps;
    for i := 0 to |ops|
      invariant fresh(packet) && fresh(stream) && packet.stream == stream && packet.Valid()
      invariant k <= |ps| && headers == Headers(ps[..k])
      invariant stream.good ==> GoOns(ops[..i]) == k && packet.Before(ps[k..])
      invariant !stream.good ==> k == |ps| < GoOns(ops[..i])
    {
      GoOnsStep(ops, i);
      if ops[i] != GoOn {
        packet := Use(packet, ops[i], ps[k..]);
      } else {
        var taken := GoOnwards(packet, stream, ps[k..]);
        if taken {
          assert ps[k..][1..] == ps[k + 1..];
          HeadersSnoc(ps, k);
          headers := headers + [(packet.opcode, packet.payloadSize)];
          k := k + 1;
        }
      }
    }
    assert ops[..|ops|] == ops;
  }
}
