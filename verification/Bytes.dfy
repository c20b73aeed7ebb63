/** Bytes, byte strings and the result types every other module uses. */
module Bytes {
  type byte = b: int | 0 <= b < 256

  type u16 = n: int | 0 <= n < 0x1_0000

  datatype Option<+T> = None | Some(value: T)

  datatype Result<+T, +E> = Ok(value: T) | Err(error: E) {
    predicate IsFailure() {
      Err?
    }

    function PropagateFailure<U>(): Result<U, E>
      requires Err?
    {
      Err(error)
    }

    function Extract(): T
      requires Ok?
    {
      value
    }
  }

  function Min(a: nat, b: nat): nat {
    if a <= b then a else b
  }

  /** `n` copies of one byte. */
  function Fill(n: nat, b: byte): (s: seq<byte>)
    ensures |s| == n
  {
    seq(n, i => b)
  }

  lemma Assoc<T>(a: seq<T>, b: seq<T>, c: seq<T>)
    ensures a + b + c == a + (b + c)
  {
  }

  lemma NothingBefore<T>(s: seq<T>)
    ensures [] + s == s
  {
  }

  lemma TakeDrop<T>(s: seq<T>, n: nat)
    requires n <= |s|
    ensures s[..n] + s[n..] == s
  {
  }

  /** The concatenation of a list of byte strings. */
  function Flatten(parts: seq<seq<byte>>): seq<byte> {
    if parts == [] then [] else parts[0] + Flatten(parts[1..])
  }

  lemma {:induction false} FlattenAppend(a: seq<seq<byte>>, b: seq<seq<byte>>)
    ensures Flatten(a + b) == Flatten(a) + Flatten(b)
  {
    if a == [] {
      assert a + b == b;
    } else {
      assert (a + b)[0] == a[0] && (a + b)[1..] == a[1..] + b;
      FlattenAppend(a[1..], b);
      assert Flatten(a + b) == a[0] + (Flatten(a[1..]) + Flatten(b));
    }
  }
}

/** C++ bit operations on unsigned integers of any width, defined bit by bit. */
module Bits {
  import opened Bytes

  function And(x: nat, m: nat): nat {
    if x == 0 || m == 0 then 0
    else (if x % 2 == 1 && m % 2 == 1 then 1 else 0) + 2 * And(x / 2, m / 2)
  }

  function Or(x: nat, y: nat): nat {
    if x == 0 then y
    else if y == 0 then x
    else (if x % 2 == 1 || y % 2 == 1 then 1 else 0) + 2 * Or(x / 2, y / 2)
  }

  function Shl3(x: nat): nat { 8 * x }

  function Shr3(x: nat): nat { x / 8 }

  /** Conversion to `uint8_t`: what is above the low eight bits is lost. */
  function U8(x: nat): byte { x % 256 }

  lemma AndDouble(x: nat, m: nat)
    ensures And(x, 2 * m) == 2 * And(x / 2, m)
  {
    assert 2 * m / 2 == m && 2 * m % 2 == 0;
  }

  lemma AndOdd(x: nat, m: nat)
    ensures And(x, 2 * m + 1) == 2 * And(x / 2, m) + x % 2
  {
    assert (2 * m + 1) / 2 == m && (2 * m + 1) % 2 == 1;
  }

  lemma AndNone(x: nat)
    ensures And(x, 0) == 0
  {
  }

  lemma AndSeven(x: nat)
    ensures And(x, 7) == x % 8
  {
    hide And;
    AndNone(x / 8);
    AndOdd(x, 3);
    AndOdd(x / 2, 1);
    AndOdd(x / 4, 0);
  }

  lemma AndThirtyOne(x: nat)
    ensures And(x, 0x1f) == x % 32
  {
    hide And;
    AndOdd(x, 15);
    AndOdd(x / 2, 7);
    AndSeven(x / 4);
    assert x / 2 / 2 == x / 4;
  }

  lemma AndShift3(x: nat, m: nat)
    ensures And(x, 8 * m) == 8 * And(x / 8, m)
  {
    hide And;
    calc {
      And(x, 8 * m);
      { AndDouble(x, 4 * m); }
      2 * And(x / 2, 4 * m);
      { AndDouble(x / 2, 2 * m); }
      4 * And(x / 4, 2 * m);
      { AndDouble(x / 4, m); }
      8 * And(x / 8, m);
    }
  }

  lemma AndShift5(x: nat, m: nat)
    ensures And(x, 32 * m) == 32 * And(x / 32, m)
  {
    hide And;
    AndShift3(x, 4 * m);
    AndDouble(x / 8, 2 * m);
    AndDouble(x / 16, m);
  }

  lemma AndShift6(x: nat, m: nat)
    ensures And(x, 64 * m) == 64 * And(x / 64, m)
  {
    hide And;
    AndShift3(x, 8 * m);
    AndShift3(x / 8, m);
  }

  lemma MaskTop3(b: byte)
    ensures And(b, 0xe0) == b / 32 * 32
  {
    hide And;
    AndShift5(b, 7);
    AndSeven(b / 32);
  }

  lemma MaskTop2(b: byte)
    ensures And(b, 0xc0) == b / 64 * 64
  {
    hide And;
    AndShift6(b, 3);
    AndOdd(b / 64, 1);
    AndOdd(b / 128, 0);
    AndNone(b / 256);
  }

  /** The fields a SCoA opcode byte is made of, as the decoder masks them out. */
  lemma OpcodeFields(b: byte)
    ensures And(b, 0xe0) == b / 32 * 32
    ensures And(b, 0xc0) == b / 64 * 64
    ensures And(b, 0x1f) == b % 32
    ensures And(b, 7) == b % 8
    ensures And(Shr3(b), 7) == b / 8 % 8
  {
    hide And;
    MaskTop3(b);
    MaskTop2(b);
    AndThirtyOne(b);
    AndSeven(b);
    AndSeven(b / 8);
  }

  lemma OrDouble(x: nat, y: nat, bit: nat)
    requires bit < 2
    ensures Or(2 * x, 2 * y + bit) == 2 * Or(x, y) + bit
  {
  }

  /** Three low bits pass through an OR with a multiple of eight. */
  lemma OrShift3(x: nat, y: nat, lo: nat)
    requires lo < 8
    ensures Or(8 * x, 8 * y + lo) == 8 * Or(x, y) + lo
  {
    hide Or;
    OrDouble(x, y, lo / 4);
    OrDouble(2 * x, 2 * y + lo / 4, lo / 2 % 2);
    OrDouble(4 * x, 4 * y + lo / 2, lo % 2);
  }

  lemma OrZero(x: nat)
    ensures Or(x, 0) == x
  {
  }

  lemma OrTop2(b: nat, mid: nat, lo: nat)
    requires b % 64 == 0 && mid < 8 && lo < 8
    ensures Or(b, 8 * mid + lo) == b + 8 * mid + lo
  {
    hide Or;
    var top := b / 64;
    OrZero(top);
    OrShift3(top, 0, mid);
    OrShift3(8 * top, mid, lo);
  }

  lemma OrLow3(b: nat, lo: nat)
    requires b % 8 == 0 && lo < 8
    ensures Or(b, lo) == b + lo
  {
    hide Or;
    OrZero(b / 8);
    OrShift3(b / 8, 0, lo);
  }

  /** A SCoA opcode byte: a class in the top bits, then two three-bit fields. */
  lemma OpcodeParts(b: nat, mid: nat, lo: nat)
    requires b % 64 == 0 && mid < 8 && lo < 8
    ensures Or(Or(b, Shl3(mid)), lo) == b + 8 * mid + lo
    ensures Or(b, Or(Shl3(mid), lo)) == b + 8 * mid + lo
  {
    hide Or;
    OrTop2(b, mid, 0);
    EightsOnly(b / 64, mid);
    OrLow3(b + 8 * mid, lo);
    EightsOnly(0, mid);
    OrLow3(8 * mid, lo);
    OrTop2(b, mid, lo);
  }

  lemma EightsOnly(top: nat, mid: nat)
    ensures (64 * top + 8 * mid) % 8 == 0
  {
    assert 64 * top + 8 * mid == 8 * (8 * top + mid);
  }

  /** An opcode byte whose low five bits hold a count. */
  lemma OpcodeCount(b: nat, count: nat)
    requires b % 32 == 0 && count < 32
    ensures Or(b, count) == b + count
  {
    hide Or;
    var top, two, lo := b / 32, count / 8, count % 8;
    assert b == 8 * (4 * top) && count == 8 * two + lo;
    OrCarry(top, two);
    OrShift3(4 * top, two, lo);
  }

  lemma OrCarry(top: nat, two: nat)
    requires two < 4
    ensures Or(4 * top, two) == 4 * top + two
  {
    hide Or;
    OrZero(top);
    OrDouble(top, 0, two / 2);
    OrDouble(2 * top, two / 2, two % 2);
  }
}
