/** The C++ streams and vectors the repository's classes work on, as byte strings. */
module Streams {
  import opened Bytes

  /** `std::vector<uint8_t>` passed by reference. */
  class ByteVector {
    var bytes: seq<byte>

    constructor ()
      ensures bytes == []
    {
      bytes := [];
    }

    method PushBack(b: byte)
      modifies this
      ensures bytes == old(bytes) + [b]
    {
      bytes := bytes + [b];
    }

    method Insert(s: seq<byte>)
      modifies this
      ensures bytes == old(bytes) + s
    {
      bytes := bytes + s;
    }

    method Clear()
      modifies this
      ensures bytes == []
    {
      bytes := [];
    }
  }

  /** A finite input: the bytes of `data` from a cursor on, then end-of-file on every
      further read. `good` is the state an `std::istream` keeps over such a buffer. */
  class ByteStream {
    const data: seq<byte>
    var pos: nat
    var good: bool

    ghost predicate Valid()
      reads this
    {
      pos <= |data|
    }

    ghost function Rest(): seq<byte>
      reads this
      requires Valid()
    {
      data[pos..]
    }

    constructor (data: seq<byte>)
      ensures Valid() && Rest() == data && good && this.data == data && pos == 0
    {
      this.data := data;
      pos, good := 0, true;
    }

    /** Looks at the next byte without taking it. */
    method Sgetc() returns (c: Option<byte>)
      requires Valid()
      ensures c == if Rest() == [] then None else Some(Rest()[0])
    {
      c := if pos < |data| then Some(data[pos]) else None;
    }

    /** Takes the next byte. */
    method Sbumpc() returns (c: Option<byte>)
      requires Valid()
      modifies this`pos
      ensures Valid()
      ensures c == if old(Rest()) == [] then None else Some(old(Rest())[0])
      ensures Rest() == old(Rest())[Min(1, |old(Rest())|)..]
    {
      if pos < |data| {
        c := Some(data[pos]);
        pos := pos + 1;
      } else {
        c := None;
      }
    }

    /** Takes up to `n` bytes. */
    method Sgetn(n: nat) returns (s: seq<byte>)
      requires Valid()
      modifies this`pos
      ensures Valid()
      ensures s == old(Rest())[..Min(n, |old(Rest())|)]
      ensures Rest() == old(Rest())[Min(n, |old(Rest())|)..]
      ensures s + Rest() == old(Rest())
    {
      var end := pos + Min(n, |data| - pos);
      s := data[pos..end];
      pos := end;
    }

    /** `std::istream::read`: nothing once the stream is bad, and bad after a short read. */
    method Read(n: nat) returns (s: seq<byte>)
      requires Valid()
      modifies this
      ensures Valid()
      ensures old(good) ==> s == old(Rest())[..Min(n, |old(Rest())|)] && Rest() == old(Rest())[|s|..]
      ensures !old(good) ==> s == [] && Rest() == old(Rest())
      ensures good == (old(good) && n <= |old(Rest())|)
    {
      if good {
        s := Sgetn(n);
        good := |s| == n;
      } else {
        s := [];
      }
    }
  }
}
