/** A page that can be sent again (libcapt/Utility/BufferedPage.cpp). */
module BufferedPages {
  import opened Bytes
  import opened Streams

  datatype SeekDir = Beg | Cur | End

  /** The fields of a page that travel with it (libcapt/Protocol/PageParams.hpp). */
  datatype PageParams = PageParams(
    paperSize: byte, tonerDensity: byte, mode: byte, resolution: byte, smoothEnable: bool, tonerSaving: bool,
    marginLeft: u16, marginTop: u16, imageLineSize: u16, imageLines: u16, paperWidth: u16, paperHeight: u16)

  class BufferedPage {
    var buffer: seq<byte>
    const videoStream: ByteStream?
    const blockSize: nat
    var pageNumber: nat
    var params: PageParams
    // the get area is the whole buffer, with a cursor
    var gptr: nat
    var egptr: nat

    ghost predicate Valid()
      reads this, videoStream
    {
      (videoStream != null ==> videoStream.Valid()) && gptr <= egptr == |buffer|
    }

    /** What the source has not been asked for yet. A block size of zero never asks. */
    ghost function Unread(): seq<byte>
      reads this, videoStream
      requires Valid()
    {
      if videoStream == null || blockSize == 0 then [] else videoStream.Rest()
    }

    /** The whole page: reading and seeking move a cursor over it and never change it. */
    ghost function Complete(): seq<byte>
      reads this, videoStream
      requires Valid()
    {
      buffer + Unread()
    }

    /** What a read from here to the end would give. */
    ghost function Pending(): seq<byte>
      reads this, videoStream
      requires Valid()
    {
      Complete()[gptr..]
    }

    constructor (pageNumber: nat, params: PageParams, stream: ByteStream?, blockSize: nat)
      requires stream != null ==> stream.Valid()
      ensures Valid() && videoStream == stream && this.blockSize == blockSize
      ensures this.pageNumber == pageNumber && this.params == params
      ensures buffer == [] && gptr == 0
      ensures Complete() == if stream == null || blockSize == 0 then [] else stream.Rest()
    {
      this.pageNumber, this.params, videoStream, this.blockSize := pageNumber, params, stream, blockSize;
      buffer, gptr, egptr := [], 0, 0;
    }

    /** The move constructor: the bytes read so far and no source. All of the page comes along
        exactly when it had been read to its end. */
    constructor Moved(other: BufferedPage)
      requires other.Valid()
      modifies other
      ensures Valid() && videoStream == null && gptr == 0
      ensures pageNumber == old(other.pageNumber) && params == old(other.params)
      ensures Complete() == old(other.buffer) && other.buffer == [] && blockSize == 4096
      ensures Complete() == old(other.Complete()) <==> old(other.Unread()) == []
    {
      buffer, videoStream, blockSize := other.buffer, null, 4096;
      pageNumber, params := other.pageNumber, other.params;
      gptr, egptr := 0, |other.buffer|;
      new;
      other.buffer := [];
    }

    /** Move assignment: the target keeps its own source, and appends that to the bytes moved in. */
    method MoveFrom(other: BufferedPage)
      requires Valid() && other.Valid() && other != this
      modifies this, other
      ensures Valid() && gptr == 0 && buffer == old(other.buffer) && other.buffer == []
      ensures pageNumber == old(other.pageNumber) && params == old(other.params)
      ensures Complete() == old(other.buffer) + old(Unread())
      ensures old(Unread()) == [] ==> (Complete() == old(other.Complete()) <==> old(other.Unread()) == [])
    {
      buffer := other.buffer;
      other.buffer := [];
      pageNumber := other.pageNumber;
      params := other.params;
      gptr, egptr := 0, |buffer|;
    }

    /** Makes the byte at the cursor available, reading another block when the buffer is used up. */
    method Underflow() returns (c: Option<byte>)
      requires Valid()
      modifies this`buffer, this`gptr, this`egptr, videoStream
      ensures Valid() && Complete() == old(Complete()) && gptr == old(gptr) && old(buffer) <= buffer
      ensures c == if Pending() == [] then None else Some(Pending()[0])
      ensures Pending() == old(Pending()) && (c.Some? <==> gptr < egptr)
      ensures c == None ==> Unread() == [] && buffer == Complete()
      ensures Unread() == if old(gptr < egptr) then old(Unread()) else old(Unread())[Min(blockSize, |old(Unread())|)..]
    {
      if gptr < egptr {
        return Some(buffer[gptr]);
      }
      if videoStream == null {
        return None;
      }
      ghost var unread := Unread();
      var read := videoStream.Sgetn(blockSize);
      var oldSize := |buffer|;
      buffer := buffer + read;
      gptr, egptr := oldSize, |buffer|;
      assert read + Unread() == unread;
      return if |read| == 0 then None else Some(buffer[gptr]);
    }

    /** The next bytes, up to `k` of them, out of the buffer or out of another block. */
    method TakeSome(k: nat) returns (chunk: seq<byte>)
      requires Valid() && k >= 1
      modifies this`buffer, this`gptr, this`egptr, videoStream
      ensures Valid() && Complete() == old(Complete()) && old(buffer) <= buffer
      ensures |chunk| <= k && old(Pending()) == chunk + Pending() && gptr == old(gptr) + |chunk|
      ensures chunk == [] ==> Pending() == [] && buffer == Complete()
      ensures k <= old(egptr - gptr) ==> |chunk| == k && Unread() == old(Unread())
    {
      hide Pending, Complete, Unread;
      var c := Underflow();
      if c == None {
        NothingBefore(Pending());
        return [];
      }
      chunk := Take(Min(k, egptr - gptr));
    }

    /** Reads up to `n` bytes at the cursor. A read that comes up short has the whole page buffered; one
        that the buffer has room for leaves the source alone. */
    method Sgetn(n: nat) returns (s: seq<byte>)
      requires Valid()
      modifies this`buffer, this`gptr, this`egptr, videoStream
      ensures Valid() && Complete() == old(Complete()) && old(buffer) <= buffer
      ensures |s| == Min(n, |old(Pending())|) && old(Pending()) == s + Pending()
      ensures gptr == old(gptr) + |s|
      ensures |s| < n ==> buffer == Complete()
      ensures n <= old(egptr - gptr) ==> Unread() == old(Unread())
    {
      hide Pending, Complete, Unread;
      ghost var all, start := Pending(), gptr;
      s := [];
      assert all == [] + all;
      while |s| < n
        invariant Valid() && Complete() == old(Complete()) && old(buffer) <= buffer && |s| <= n
        invariant gptr == start + |s| && all == s + Pending()
        invariant n <= old(egptr - gptr) ==> Unread() == old(Unread()) && (|s| == n || (s == [] && egptr == old(egptr)))
        decreases n - |s|
      {
        var chunk := TakeSome(n - |s|);
        if chunk == [] {
          break;
        }
        Assoc(s, chunk, Pending());
        s := s + chunk;
      }
    }

    method Take(k: nat) returns (chunk: seq<byte>)
      requires Valid() && k <= egptr - gptr
      modifies this`gptr
      ensures Valid() && gptr == old(gptr) + k && |chunk| == k
      ensures Complete() == old(Complete()) && old(Pending()) == chunk + Pending()
      ensures Unread() == old(Unread())
    {
      chunk := buffer[gptr..gptr + k];
      gptr := gptr + k;
      assert old(Pending())[..k] == chunk;
    }

    /** Seeks to an absolute place, which must be in the bytes read so far. */
    method Seekpos(pos: nat, inMode: bool) returns (r: int)
      requires Valid() && (inMode ==> pos <= |buffer|)
      modifies this`gptr
      ensures Valid() && Complete() == old(Complete())
      ensures if inMode then r == gptr == pos else r == -1 && gptr == old(gptr)
    {
      if !inMode {
        return -1;
      }
      gptr := pos;
      return gptr;
    }

    /** Seeks by an offset from the start, the cursor or the end of the bytes read so far. */
    method Seekoff(off: int, dir: SeekDir, inMode: bool) returns (r: int)
      requires Valid()
      requires inMode ==> 0 <= off + (match dir case Beg => 0 case Cur => gptr case End => egptr) <= egptr
      modifies this`gptr
      ensures Valid() && Complete() == old(Complete())
      ensures if inMode then r == gptr == off + (match dir case Beg => 0 case Cur => old(gptr) case End => |buffer|)
              else r == -1 && gptr == old(gptr)
    {
      if !inMode {
        return -1;
      }
      match dir {
        case Cur => gptr := gptr + off;
        case Beg => gptr := off;
        case End => gptr := egptr + off;
      }
      return gptr;
    }
  }
}
