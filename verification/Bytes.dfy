/** Bytes, optional values and the few sequence operations the protocol modules share. */
module Bytes {

  type byte = x: int | 0 <= x < 256

  datatype Option<+T> = None | Some(value: T)

  lemma Associative<T>(a: seq<T>, b: seq<T>, c: seq<T>)
    ensures a + (b + c) == a + b + c
  {
  }

  /** Drops the 0x00 bytes a K-line clocks in ahead of a frame. */
  function StripZeros(s: seq<byte>): (r: seq<byte>)
    ensures |r| <= |s|
    ensures r != [] ==> r[0] != 0
  {
    if s != [] && s[0] == 0 then StripZeros(s[1..]) else s
  }

  /** Zeros are all it drops, and all of them. */
  lemma {:induction false} StripsOnlyZeros(s: seq<byte>)
    ensures s == Zeros(|s| - |StripZeros(s)|) + StripZeros(s)
  {
    if s != [] && s[0] == 0 {
      StripsOnlyZeros(s[1..]);
      var n := |s| - |StripZeros(s)|;
      assert Zeros(n) == [0] + Zeros(n - 1);
      assert s == [0] + s[1..];
    } else {
      assert s == [] + s;
    }
  }

  /** The stripping loop of the 2J session and of the 1.9 wake-up. */
  method StripLeadingZeros(received: seq<byte>) returns (buffer: seq<byte>)
    ensures buffer == StripZeros(received)
  {
    buffer := received;
    while |buffer| > 0 && buffer[0] == 0
      invariant StripZeros(buffer) == StripZeros(received)
    {
      buffer := buffer[1..];
    }
  }

  function Zeros(n: nat): (r: seq<byte>)
    ensures |r| == n && forall i :: 0 <= i < n ==> r[i] == 0
  {
    seq(n, i => 0)
  }

  /** Stripping at every read or once at the end gives the same bytes. */
  lemma {:induction false} StripZerosAppend(a: seq<byte>, b: seq<byte>)
    ensures StripZeros(StripZeros(a) + b) == StripZeros(a + b)
  {
    if a != [] && a[0] == 0 {
      assert (a + b)[1..] == a[1..] + b;
      StripZerosAppend(a[1..], b);
    }
  }

  lemma {:induction false} StripZerosPadding(n: nat, s: seq<byte>)
    ensures StripZeros(Zeros(n) + s) == StripZeros(s)
  {
    if n == 0 {
      assert Zeros(0) + s == s;
    } else {
      assert (Zeros(n) + s)[1..] == Zeros(n - 1) + s;
      StripZerosPadding(n - 1, s);
    }
  }

  /** The first n parts, one after the other. */
  function Join(parts: seq<seq<byte>>, n: nat): (r: seq<byte>)
    requires n <= |parts|
  {
    if n == 0 then [] else Join(parts, n - 1) + parts[n - 1]
  }

  /** The bytes of s at some offsets. */
  function Pick(s: seq<byte>, offsets: seq<nat>): (r: seq<byte>)
    requires Within(offsets, s)
    ensures |r| == |offsets| && forall i :: 0 <= i < |offsets| ==> r[i] == s[offsets[i]]
  {
    seq(|offsets|, i requires 0 <= i < |offsets| => s[offsets[i]])
  }

  predicate Within(offsets: seq<nat>, s: seq<byte>)
  {
    forall i :: 0 <= i < |offsets| ==> offsets[i] < |s|
  }

  /** A big-endian 16-bit field, as encoding/binary reads and writes it. */
  function PutUint16(x: nat): (r: seq<byte>)
    ensures |r| == 2
  {
    [x / 256 % 256, x % 256]
  }

  function Uint16(hi: byte, lo: byte): (r: nat)
    ensures r < 65536
  {
    hi * 256 + lo
  }

  lemma Uint16RoundTrip(x: nat)
    ensures Uint16(PutUint16(x)[0], PutUint16(x)[1]) == x % 65536
  {
    var q := x / 65536;
    assert x / 256 == q * 256 + x % 65536 / 256;
  }

  /** The high byte comes first. */
  lemma HighByteFirst(hi: byte, lo: byte)
    ensures PutUint16(hi as int * 256 + lo as int) == [hi, lo] && Uint16(hi, lo) == hi as int * 256 + lo as int
  {
    var x := hi as int * 256 + lo as int;
    assert x / 256 == hi as int && x % 256 == lo as int;
  }

  lemma SmallRemainder(r: nat, m: nat)
    requires r < m
    ensures r % m == r
  {
  }

  lemma Uint16Fits(x: nat)
    requires x < 65536
    ensures Uint16(PutUint16(x)[0], PutUint16(x)[1]) == x
  {
    Uint16RoundTrip(x);
  }

  function Pow2(n: nat): (r: nat)
    ensures r > 0
  {
    if n == 0 then 1 else 2 * Pow2(n - 1)
  }

  lemma Powers()
    ensures Pow2(8) == 256 && Pow2(15) == 0x8000 && Pow2(16) == 0x10000
  {
    assert Pow2(2) == 4;
    assert Pow2(4) == 16;
    assert Pow2(6) == 64;
    assert Pow2(8) == 256;
    assert Pow2(10) == 1024;
    assert Pow2(12) == 4096;
    assert Pow2(14) == 16384;
    assert Pow2(15) == 2 * Pow2(14);
    assert Pow2(16) == 2 * Pow2(15);
  }

  /** Exclusive or of two words of the given width, bit by bit. */
  function Xor(width: nat, a: nat, b: nat): (r: nat)
    ensures r < Pow2(width)
  {
    if width == 0 then 0 else (a + b) % 2 + 2 * Xor(width - 1, a / 2, b / 2)
  }

  lemma XorHalves(width: nat, a: nat, b: nat)
    requires width > 0
    ensures Xor(width, a, b) % 2 == (a + b) % 2 && Xor(width, a, b) / 2 == Xor(width - 1, a / 2, b / 2)
  {
  }

  function XorByte(a: byte, b: byte): (r: byte)
  {
    Powers();
    Xor(8, a, b)
  }

  lemma {:induction false} XorSelf(width: nat, a: nat)
    ensures Xor(width, a, a) == 0
  {
    if width > 0 {
      XorSelf(width - 1, a / 2);
    }
  }

  lemma AllOnes(width: nat, a: nat)
    requires width > 0 && a < Pow2(width)
    ensures (Pow2(width) - 1) / 2 == Pow2(width - 1) - 1 && (a + (Pow2(width) - 1)) % 2 == 1 - a % 2
    ensures a / 2 < Pow2(width - 1)
  {
    DoubleLessOne(Pow2(width - 1), a);
  }

  lemma DoubleLessOne(p: nat, a: nat)
    requires a < 2 * p
    ensures (2 * p - 1) / 2 == p - 1 && (a + (2 * p - 1)) % 2 == 1 - a % 2 && a / 2 < p
  {
    var h := a / 2;
    if a == 2 * h {
      assert a + (2 * p - 1) == 2 * (p + h - 1) + 1;
    } else {
      assert a + (2 * p - 1) == 2 * (p + h);
    }
  }

  /** Exclusive or with all ones is the complement. */
  lemma {:induction false} XorOnes(width: nat, a: nat)
    requires a < Pow2(width)
    ensures Xor(width, a, Pow2(width) - 1) == Pow2(width) - 1 - a
  {
    if width > 0 {
      AllOnes(width, a);
      XorOnes(width - 1, a / 2);
    }
  }

  lemma ComplementOfByte(a: byte)
    ensures XorByte(a, 0xFF) as int == 255 - a as int
  {
    Powers();
    XorOnes(8, a);
  }
}
