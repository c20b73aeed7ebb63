/** Cutting a line into segments (libcapt/Compression/ScoaFunc.hpp and ScoaState.hpp). */
module Segments {
  import opened Bytes

  datatype FuncType = Copy | Repeat | Raw

  datatype Func = Func(kind: FuncType, index: nat, count: nat) {
    function End(): nat { index + count }
  }

  /** A previous line is of the line's own size, or empty when there is none. */
  predicate LinePair(line: seq<byte>, prev: seq<byte>) {
    prev == [] || |prev| == |line|
  }

  predicate Same(line: seq<byte>, prev: seq<byte>, i: nat)
    requires LinePair(line, prev) && i < |line|
  {
    prev != [] && line[i] == prev[i]
  }

  // ----- which segments there are, said of each segment by itself

  /** The bytes a segment stands for fit its type. */
  ghost predicate Body(f: Func, line: seq<byte>, prev: seq<byte>)
    requires LinePair(line, prev)
  {
    && f.count >= 1 && f.End() <= |line|
    && match f.kind
       case Copy => forall i | f.index <= i < f.End() :: Same(line, prev, i)
       case Repeat =>
         && f.count >= 2 && !Same(line, prev, f.index)
         && forall i | f.index <= i < f.End() :: line[i] == line[f.index]
       case Raw =>
         && (forall i | f.index <= i < f.End() :: !Same(line, prev, i))
         && (forall i | f.index < i < f.End() :: line[i - 1] != line[i])
  }

  /** The segment could not have been longer. A Raw segment gives way only to a Copy or to a
      Repeat, and its last byte is never part of that Repeat. */
  ghost predicate Closed(f: Func, line: seq<byte>, prev: seq<byte>)
    requires LinePair(line, prev) && f.count >= 1 && f.End() <= |line|
  {
    var e := f.End();
    e < |line| ==>
      match f.kind
      case Copy => !Same(line, prev, e)
      case Repeat => line[e] != line[e - 1]
      case Raw => line[e] != line[e - 1] && (Same(line, prev, e) || (e + 1 < |line| && line[e] == line[e + 1]))
  }

  ghost predicate Segment(f: Func, line: seq<byte>, prev: seq<byte>)
    requires LinePair(line, prev)
  {
    Body(f, line, prev) && Closed(f, line, prev)
  }

  /** Two segments that begin at the same byte are the same segment. */
  lemma SegmentUnique(f: Func, g: Func, line: seq<byte>, prev: seq<byte>)
    requires LinePair(line, prev) && Segment(f, line, prev) && Segment(g, line, prev) && f.index == g.index
    ensures f == g
  {
    assert Same(line, prev, f.index) <==> f.kind == Copy;
    assert Same(line, prev, g.index) <==> g.kind == Copy;
    SameKind(f, g, line, prev);
    SameKind(g, f, line, prev);
    SameEnd(f, g, line, prev);
    SameEnd(g, f, line, prev);
  }

  lemma SameKind(f: Func, g: Func, line: seq<byte>, prev: seq<byte>)
    requires LinePair(line, prev) && Segment(f, line, prev) && Segment(g, line, prev) && f.index == g.index
    ensures !(f.kind == Raw && g.kind == Repeat)
  {
    var i := f.index;
    assert i + 1 < f.End() && f.kind == Raw ==> line[i + 1 - 1] != line[i + 1];
    assert i + 1 < g.End() && g.kind == Repeat ==> line[i] == line[i + 1];
  }

  lemma SameEnd(f: Func, g: Func, line: seq<byte>, prev: seq<byte>)
    requires LinePair(line, prev) && Segment(f, line, prev) && Segment(g, line, prev)
    requires f.index == g.index && f.kind == g.kind
    ensures f.End() >= g.End()
  {
    if f.End() < g.End() {
      Inside(g, f.End(), line, prev);
      assert false;
    }
  }

  /** What holds of a byte inside a segment, past its first. */
  lemma Inside(g: Func, e: nat, line: seq<byte>, prev: seq<byte>)
    requires LinePair(line, prev) && Segment(g, line, prev) && g.index < e < g.End()
    ensures e < |line|
    ensures g.kind == Copy ==> Same(line, prev, e)
    ensures g.kind == Repeat ==> line[e] == line[e - 1]
    ensures g.kind == Raw ==> !Same(line, prev, e) && (e + 1 < |line| ==> line[e] != line[e + 1])
  {
    assert e + 1 < g.End() && g.kind == Raw ==> line[e + 1 - 1] != line[e + 1];
  }

  // ----- the segments of a line, by longest runs

  function CopyEnd(line: seq<byte>, prev: seq<byte>, i: nat): (e: nat)
    requires LinePair(line, prev) && i <= |line|
    ensures i <= e <= |line|
    ensures forall j | i <= j < e :: Same(line, prev, j)
    ensures e < |line| ==> !Same(line, prev, e)
    decreases |line| - i
  {
    if i < |line| && Same(line, prev, i) then CopyEnd(line, prev, i + 1) else i
  }

  function RepeatEnd(line: seq<byte>, b: byte, i: nat): (e: nat)
    requires i <= |line|
    ensures i <= e <= |line|
    ensures forall j | i <= j < e :: line[j] == b
    ensures e < |line| ==> line[e] != b
    decreases |line| - i
  {
    if i < |line| && line[i] == b then RepeatEnd(line, b, i + 1) else i
  }

  function RawEnd(line: seq<byte>, prev: seq<byte>, i: nat): (e: nat)
    requires LinePair(line, prev) && i <= |line|
    ensures i <= e <= |line|
    ensures forall j | i <= j < e :: !Same(line, prev, j) && (j + 1 < |line| ==> line[j] != line[j + 1])
    ensures e < |line| ==> Same(line, prev, e) || (e + 1 < |line| && line[e] == line[e + 1])
    decreases |line| - i
  {
    if i < |line| && !Same(line, prev, i) && !(i + 1 < |line| && line[i] == line[i + 1])
    then RawEnd(line, prev, i + 1)
    else i
  }

  function SegmentAt(line: seq<byte>, prev: seq<byte>, i: nat): (f: Func)
    requires LinePair(line, prev) && i < |line|
    ensures f.index == i && f.count >= 1 && f.End() <= |line|
  {
    if Same(line, prev, i) then Func(Copy, i, CopyEnd(line, prev, i) - i)
    else if i + 1 < |line| && line[i] == line[i + 1] then Func(Repeat, i, RepeatEnd(line, line[i], i) - i)
    else Func(Raw, i, RawEnd(line, prev, i) - i)
  }

  lemma SegmentAtIs(line: seq<byte>, prev: seq<byte>, i: nat)
    requires LinePair(line, prev) && i < |line|
    ensures Segment(SegmentAt(line, prev, i), line, prev)
  {
    var f := SegmentAt(line, prev, i);
    if f.kind == Repeat {
      assert RepeatEnd(line, line[i], i) >= i + 2;
    } else if f.kind == Raw {
      forall j | f.index < j < f.End() ensures line[j - 1] != line[j] {
        assert j - 1 + 1 < |line|;
      }
      var e := f.End();
      assert e < |line| ==> line[e - 1] != line[e - 1 + 1];
    }
  }

  function SegmentsFrom(line: seq<byte>, prev: seq<byte>, i: nat): seq<Func>
    requires LinePair(line, prev) && i <= |line|
    decreases |line| - i
  {
    if i == |line| then []
    else
      var f := SegmentAt(line, prev, i);
      [f] + SegmentsFrom(line, prev, f.End())
  }

  /** Where a list of segments begins can be read off it. */
  lemma SegmentsStart(line: seq<byte>, prev: seq<byte>, j: nat)
    requires LinePair(line, prev) && j <= |line|
    ensures j == if SegmentsFrom(line, prev, j) == [] then |line| else SegmentsFrom(line, prev, j)[0].index
  {
  }

  /** `fs` covers the line from byte `i` to its end, without gap or overlap. */
  ghost predicate Tiles(fs: seq<Func>, line: seq<byte>, prev: seq<byte>, i: nat)
    requires LinePair(line, prev)
  {
    if fs == [] then i == |line|
    else fs[0].index == i && Segment(fs[0], line, prev) && Tiles(fs[1..], line, prev, fs[0].End())
  }

  /** The longest-run segments tile the line, and nothing else made of segments does. */
  lemma {:induction false} TilesIff(fs: seq<Func>, line: seq<byte>, prev: seq<byte>, i: nat)
    requires LinePair(line, prev) && i <= |line|
    ensures Tiles(fs, line, prev, i) <==> fs == SegmentsFrom(line, prev, i)
    decreases |line| - i, |fs|
  {
    if i < |line| {
      var f := SegmentAt(line, prev, i);
      SegmentAtIs(line, prev, i);
      if fs != [] && fs[0].index == i && Segment(fs[0], line, prev) {
        SegmentUnique(fs[0], f, line, prev);
        TilesIff(fs[1..], line, prev, f.End());
        assert fs == [fs[0]] + fs[1..];
      }
    } else if fs != [] {
      assert !(fs[0].index == i && Segment(fs[0], line, prev));
    }
  }

  /** What a segment's neighbour can be: no two Copy or two Raw segments meet, the first byte
      of what follows a Repeat differs from it, and a Copy that does not end the line is
      followed by something to pair it with. */
  lemma Neighbours(line: seq<byte>, prev: seq<byte>, i: nat)
    requires LinePair(line, prev) && i < |line|
    ensures var f := SegmentAt(line, prev, i);
            f.End() < |line| ==>
              var g := SegmentAt(line, prev, f.End());
              && (f.kind == Copy ==> g.kind != Copy)
              && (f.kind == Raw ==> g.kind != Raw)
              && (f.kind == Repeat ==> line[g.index] != line[f.index])
  {
    var f := SegmentAt(line, prev, i);
    SegmentAtIs(line, prev, i);
    if f.End() < |line| {
      SegmentAtIs(line, prev, f.End());
    }
  }

  /** Putting the segments' bytes one after the other gives the line back. */
  lemma {:induction false} SegmentsCover(line: seq<byte>, prev: seq<byte>, i: nat)
    requires LinePair(line, prev) && i <= |line|
    ensures forall f: Func | f in SegmentsFrom(line, prev, i) :: f.index <= f.End() <= |line|
    ensures Payloads(SegmentsFrom(line, prev, i), line) == line[i..]
    decreases |line| - i
  {
    if i < |line| {
      var f := SegmentAt(line, prev, i);
      SegmentsCover(line, prev, f.End());
      var rest := SegmentsFrom(line, prev, f.End());
      assert ([f] + rest)[1..] == rest;
      assert line[i..] == line[i..f.End()] + line[f.End()..];
    }
  }

  function Payloads(fs: seq<Func>, line: seq<byte>): seq<byte>
    requires forall f: Func | f in fs :: f.index <= f.End() <= |line|
  {
    if fs == [] then [] else line[fs[0].index..fs[0].End()] + Payloads(fs[1..], line)
  }
}

/** The incremental segmenter: one segment ready, one still growing. */
module ScoaStates {
  import opened Bytes
  import opened Segments

  class ScoaState {
    var last: Func
    var curr: Func
    const line: seq<byte>
    const prevLine: seq<byte>
    var index: nat

    ghost predicate Valid()
      reads this
    {
      && LinePair(line, prevLine) && 1 <= |line| && 1 <= index <= |line| + 2
      && (index <= |line| ==>
            && Segment(curr, line, prevLine) && last.index == curr.End()
            && Body(last, line, prevLine) && last.End() == index)
      && (index == |line| + 1 ==> Segment(curr, line, prevLine) && curr.End() == |line|)
    }

    /** The segments `Get` has yet to return. */
    ghost function Pending(): seq<Func>
      requires Valid()
      reads this
    {
      if index <= |line| + 1 then SegmentsFrom(line, prevLine, curr.index) else []
    }

    constructor (line: seq<byte>, prevLine: seq<byte>)
      requires LinePair(line, prevLine) && 1 <= |line|
      ensures Valid() && this.line == line && this.prevLine == prevLine
      ensures Pending() == SegmentsFrom(line, prevLine, 0)
    {
      this.line, this.prevLine := line, prevLine;
      index := 0;
      last, curr := Func(Raw, 0, 0), Func(Raw, 0, 0);
      new;
      var more := Next();
    }

    /** Extends the growing segment by byte `idx`, or returns the segment that begins there.
        A Raw segment whose last byte repeats gives that byte up. `hasLast` is false where the
        source passes a null pointer. */
    method NextFunc(idx: nat, hasLast: bool) returns (next: Option<Func>)
      requires LinePair(line, prevLine) && idx < |line| && (hasLast <==> idx > 0)
      requires hasLast ==> Body(last, line, prevLine) && last.End() == idx
      modifies this`last
      ensures !hasLast ==> next.Some? && last == old(last)
      ensures hasLast ==> last.index == old(last.index)
      ensures next == None ==> Body(last, line, prevLine) && last.End() == idx + 1
      ensures next.Some? ==> Body(next.value, line, prevLine) && next.value.End() == idx + 1
      ensures next.Some? && !hasLast ==> next.value.index == 0
      ensures next.Some? && hasLast ==> Segment(last, line, prevLine) && last.End() == next.value.index
    {
      if idx >= 1 && line[idx] == line[idx - 1] && last.kind != Copy {
        if last.kind == Repeat {
          last := last.(count := last.count + 1);
          return None;
        } else if last.count == 1 {
          last := last.(kind := Repeat, count := 2);
          return None;
        }
        last := last.(count := last.count - 1);
        return Some(Func(Repeat, idx - 1, 2));
      } else if |prevLine| != 0 && line[idx] == prevLine[idx] {
        if hasLast && last.kind == Copy {
          last := last.(count := last.count + 1);
          return None;
        }
        return Some(Func(Copy, idx, 1));
      } else if hasLast && last.kind == Raw {
        last := last.(count := last.count + 1);
        return None;
      }
      return Some(Func(Raw, idx, 1));
    }

    /** Moves on to the next finished segment. */
    method Next() returns (more: bool)
      requires index == 0 || Valid()
      requires LinePair(line, prevLine) && 1 <= |line|
      modifies this
      ensures Valid()
      ensures old(index) == 0 ==> more && Pending() == SegmentsFrom(line, prevLine, 0)
      ensures 0 < old(index) <= |line| + 1 ==>
                more && old(curr.End()) <= |line| && Pending() == SegmentsFrom(line, prevLine, old(curr.End()))
      ensures old(index) == |line| + 2 ==> !more && Pending() == []
    {
      ghost var start := if index == 0 then 0 else last.index;
      while index < |line|
        invariant index <= |line| + 2 && (old(index) > |line| ==> index == old(index))
        invariant old(index) <= |line| ==> index <= |line|
        invariant old(index) > |line| ==> Valid() && curr == old(curr)
        invariant 0 < index <= |line| ==> Body(last, line, prevLine) && last.End() == index && last.index == start
        invariant old(index) > 0 ==> index > 0
      {
        var next := NextFunc(index, index != 0);
        index := index + 1;
        if next.Some? {
          if index > 1 {
            curr := last;
            last := next.value;
            return true;
          }
          last := next.value;
        }
      }
      if index != 0 && index <= |line| + 1 {
        curr := last;
        index := index + 1;
        return true;
      }
      return false;
    }

    method Peek() returns (f: Func)
      requires Valid() && Pending() != []
      ensures f == Pending()[0] && f == curr && f.End() <= |line| && index <= |line| + 1
      ensures Pending() == [f] + SegmentsFrom(line, prevLine, f.End())
    {
      SegmentAtIs(line, prevLine, curr.index);
      SegmentUnique(curr, SegmentAt(line, prevLine, curr.index), line, prevLine);
      return curr;
    }

    /** Each segment is returned exactly once, in order. */
    method Get() returns (f: Func)
      requires Valid() && Pending() != []
      modifies this
      ensures Valid() && f.End() <= |line|
      ensures f == old(Pending())[0] && Pending() == old(Pending())[1..]
    {
      f := Peek();
      hide Segment, Body, SegmentsFrom, SegmentAt;
      var more := Next();
    }

    method Empty() returns (empty: bool)
      requires Valid()
      ensures empty <==> Pending() == []
    {
      return index > |line| + 1;
    }
  }
}
