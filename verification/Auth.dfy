/** internal/ecu/auth.go: the security-access key, and what its loop computes. */
module Auth {
  import opened Bytes

  function Shr(x: nat, n: nat): (r: nat)
  {
    if n == 0 then x else Shr(x / 2, n - 1)
  }

  function Bit(n: nat, x: nat): (b: nat)
    ensures b < 2
  {
    Shr(x, n) % 2
  }

  function RoundCount(seed: nat): (loops: nat)
    ensures 1 <= loops <= 16
  {
    1 + 8 * Bit(15, seed) + 4 * Bit(7, seed) + 2 * Bit(4, seed) + Bit(0, seed)
  }

  // key &= 0b11111111111111110, key |= 1 and key |= 0x8000 on non-negative words.
  function ClearLsb(key: nat): nat { key % 0x20000 - key % 2 }
  function SetLsb(key: nat): nat { key - key % 2 + 1 }
  function SetMsb(key: nat): nat { if Bit(15, key) == 1 then key else key + 0x8000 }

  /** One mixing round. */
  function Round(seed: nat): nat
  {
    var key := seed / 2;
    var key := if Bit(13, seed) > 0 && Bit(3, seed) > 0 then ClearLsb(key) else SetLsb(key);
    if (Bit(9, seed) + Bit(8, seed) + Bit(2, seed) + Bit(1, seed)) % 2 > 0 then SetMsb(key) else key
  }

  function Rounds(seed: nat, k: nat): nat
  {
    if k == 0 then seed else Round(Rounds(seed, k - 1))
  }

  function Key(seed: nat): nat { Rounds(seed, RoundCount(seed)) }

  method GenerateKey(seed: nat) returns (key: nat)
    ensures key == Key(seed)
  {
    hide Shr, Bit, ClearLsb, SetLsb, SetMsb;
    key := 0;
    var loops := 1;
    if Bit(15, seed) > 0 { loops := loops + 8; }
    if Bit(7, seed) > 0 { loops := loops + 4; }
    if Bit(4, seed) > 0 { loops := loops + 2; }
    if Bit(0, seed) > 0 { loops := loops + 1; }
    ghost var total := loops;
    assert total == RoundCount(seed);
    var s := seed;
    while loops > 0
      invariant 0 <= loops <= total
      invariant s == Rounds(seed, total - loops)
      invariant loops < total ==> key == s
    {
      key := s / 2;
      if Bit(13, s) > 0 && Bit(3, s) > 0 {
        key := ClearLsb(key);
      } else {
        key := SetLsb(key);
      }
      var xors := (Bit(9, s) + Bit(8, s) + Bit(2, s) + Bit(1, s)) % 2;
      if xors > 0 {
        key := SetMsb(key);
      }
      s := key;
      loops := loops - 1;
    }
  }

  // ---------------------------------------------------------------- shift register

  /** The sixteen bits of a word, least significant first. */
  function Word(x: nat): (r: seq<bool>)
    ensures |r| == 16
  {
    seq(16, i requires 0 <= i < 16 => Bit(i, x) == 1)
  }

  /** A word of any width, bit by bit, and its numeric value. */
  function Bits(width: nat, x: nat): (r: seq<bool>)
    ensures |r| == width
  {
    if width == 0 then [] else [x % 2 == 1] + Bits(width - 1, x / 2)
  }

  function Value(bits: seq<bool>): (r: nat)
    ensures r < Pow2(|bits|)
  {
    if bits == [] then 0 else (if bits[0] then 1 else 0) + 2 * Value(bits[1..])
  }

  lemma {:induction false} ValueOfBits(width: nat, x: nat)
    requires x < Pow2(width)
    ensures Value(Bits(width, x)) == x
  {
    if width > 0 {
      ValueOfBits(width - 1, x / 2);
      assert Bits(width, x)[1..] == Bits(width - 1, x / 2);
    }
  }

  lemma {:induction false} BitsAreBits(width: nat, x: nat, i: nat)
    requires i < width
    ensures Bits(width, x)[i] == (Bit(i, x) == 1)
  {
    if i > 0 {
      BitsAreBits(width - 1, x / 2, i - 1);
    }
  }

  lemma BitOfHalf(width: nat, x: nat, i: nat)
    requires i < width
    ensures Bits(width, x)[i] == if i == 0 then x % 2 == 1 else Bits(width - 1, x / 2)[i - 1]
  {
  }

  /** Exclusive or is bitwise. */
  lemma {:induction false} XorIsBitwise(width: nat, a: nat, b: nat, i: nat)
    requires i < width
    ensures Bits(width, Xor(width, a, b))[i] == (Bits(width, a)[i] != Bits(width, b)[i])
  {
    hide Xor, Bits;
    XorHalves(width, a, b);
    BitOfHalf(width, a, i);
    BitOfHalf(width, b, i);
    BitOfHalf(width, Xor(width, a, b), i);
    if i > 0 {
      XorIsBitwise(width - 1, a / 2, b / 2, i - 1);
    }
  }

  lemma ValueOfWord(x: nat, width: nat)
    requires x < 65536 && width == 16
    ensures Value(Word(x)) == x
  {
    Powers();
    forall i | 0 <= i < width ensures Bits(width, x)[i] == Word(x)[i] {
      BitsAreBits(width, x, i);
    }
    assert Bits(width, x) == Word(x);
    ValueOfBits(width, x);
  }

  /** What a 16-bit register fed back through bits 9, 8, 2 and 1 has shifted in after k clocks:
      the seed's sixteen bits followed by k feedback bits. No bit is ever forced. */
  function Register(seed: nat, k: nat): (t: seq<bool>)
    ensures |t| == 16 + k
  {
    if k == 0 then Word(seed)
    else
      var t := Register(seed, k - 1);
      t + [((t[k + 8] != t[k + 7]) != t[k + 1]) != t[k]]
  }

  /** Setting bit n of a word below 2^n. */
  lemma {:induction false} HighBit(n: nat, x: nat, i: nat)
    requires x < Pow2(n) && i <= n
    ensures Bit(i, x + Pow2(n)) == if i == n then 1 else Bit(i, x)
    ensures Bit(n, x) == 0
  {
    if n > 0 {
      assert (x + Pow2(n)) / 2 == x / 2 + Pow2(n - 1);
      HighBit(n - 1, x / 2, if i == 0 then 0 else i - 1);
    }
  }

  /** One round on the word's bits. */
  function Clock(b: seq<bool>): (r: seq<bool>)
    requires |b| == 16
    ensures |r| == 16
  {
    [!(b[13] && b[3])] + b[2..] + [((b[9] != b[8]) != b[2]) != b[1]]
  }

  function Clocks(b: seq<bool>, k: nat): (r: seq<bool>)
    requires |b| == 16
    ensures |r| == 16
  {
    if k == 0 then b else Clock(Clocks(b, k - 1))
  }

  lemma BitHalf(i: nat, x: nat)
    requires i > 0
    ensures Bit(i, x) == Bit(i - 1, x / 2)
  {
  }

  lemma BitZero(x: nat)
    ensures Bit(0, x) == x % 2
  {
  }

  lemma RoundBit(s: nat, i: nat)
    requires s < 65536 && i < 16
    ensures Round(s) < 65536
    ensures Bit(i, Round(s)) ==
            if i == 0 then (if Bit(13, s) == 1 && Bit(3, s) == 1 then 0 else 1)
            else if i == 15 then (Bit(9, s) + Bit(8, s) + Bit(2, s) + Bit(1, s)) % 2
            else Bit(i + 1, s)
  {
    hide Bit, Shr;
    var half := s / 2;
    var key := if Bit(13, s) > 0 && Bit(3, s) > 0 then ClearLsb(half) else SetLsb(half);
    Powers();
    assert key < 0x8000 && key / 2 == half / 2;
    HighBit(15, key, i);
    BitHalf(i + 1, s);
    if i > 0 {
      BitHalf(i, key);
      BitHalf(i, half);
    } else {
      BitZero(key);
    }
    if i == 15 {
      assert Bit(15, key) == 0;
    }
  }

  /** A round shifts bits 2..15 down, feeds bit 15 and forces bit 0. */
  lemma RoundIsClock(s: nat)
    requires s < 65536
    ensures Round(s) < 65536 && Word(Round(s)) == Clock(Word(s))
  {
    forall i | 0 <= i < 16 ensures Word(Round(s))[i] == Clock(Word(s))[i] {
      RoundBit(s, i);
    }
    RoundBit(s, 0);
  }

  lemma {:induction false} RoundsAreClocks(seed: nat, k: nat)
    requires seed < 65536
    ensures Rounds(seed, k) < 65536 && Word(Rounds(seed, k)) == Clocks(Word(seed), k)
  {
    if k > 0 {
      RoundsAreClocks(seed, k - 1);
      RoundIsClock(Rounds(seed, k - 1));
    }
  }

  /** One clock of a word whose upper fifteen bits are the end of what was shifted in. */
  lemma ClockSlides(b: seq<bool>, t: seq<bool>, k: nat)
    requires |b| == 16 && |t| == 16 + k && b[1..] == t[k + 1..]
    ensures var fed := ((t[k + 9] != t[k + 8]) != t[k + 2]) != t[k + 1];
            Clock(b)[1..] == t[k + 2..] + [fed] && Clock(b)[0] == !(t[k + 13] && t[k + 3])
  {
    assert forall i :: 1 <= i < 16 ==> b[i] == b[1..][i - 1] == t[k + 1..][i - 1] == t[k + i];
    assert b[2..] == b[1..][1..] == t[k + 1..][1..] == t[k + 2..];
  }

  /** Bits 1..15 slide along the register; bit 0 is decided by the last round alone. */
  lemma {:induction false} ClocksAreRegister(seed: nat, k: nat)
    ensures Clocks(Word(seed), k)[1..] == Register(seed, k)[k + 1..]
    ensures k > 0 ==> Clocks(Word(seed), k)[0] == !(Register(seed, k)[k + 12] && Register(seed, k)[k + 2])
  {
    hide Word, Clock;
    if k > 0 {
      ClocksAreRegister(seed, k - 1);
      var t := Register(seed, k - 1);
      ClockSlides(Clocks(Word(seed), k - 1), t, k - 1);
      assert Register(seed, k)[k + 1..] == t[k + 1..] + Register(seed, k)[k + 15..];
    }
  }

  /** After k rounds bits 1..15 of the result are bits k+1..k+15 of the register, that is seed
      bits 1+k..15 followed by feedback bits, and the low bit forced in every round but the last
      has no influence: the loop equals clocking the register and computing the low bit once. */
  lemma KeyFromRegister(seed: nat, k: nat)
    requires seed < 65536 && k > 0
    ensures var t := Register(seed, k);
            Rounds(seed, k) == Value([!(t[k + 12] && t[k + 2])] + t[k + 1..])
  {
    RoundsAreClocks(seed, k);
    ClocksAreRegister(seed, k);
    var t, b := Register(seed, k), Clocks(Word(seed), k);
    assert b == [b[0]] + b[1..];
    ValueOfWord(Rounds(seed, k), 16);
  }

  /** The number of rounds is one more than the number whose bits are seed bits 0, 4, 7 and 15. */
  lemma RoundCountFromWord(seed: nat)
    ensures var w := Word(seed); RoundCount(seed) == 1 + Value([w[0], w[4], w[7], w[15]])
  {
    hide Bit;
    var w := Word(seed);
    assert Value([]) == 0;
    assert Value([w[15]]) == Bit(15, seed);
    assert [w[7], w[15]][1..] == [w[15]];
    assert Value([w[7], w[15]]) == Bit(7, seed) + 2 * Bit(15, seed);
    assert [w[4], w[7], w[15]][1..] == [w[7], w[15]];
    assert Value([w[4], w[7], w[15]]) == Bit(4, seed) + 2 * Bit(7, seed) + 4 * Bit(15, seed);
    assert [w[0], w[4], w[7], w[15]][1..] == [w[4], w[7], w[15]];
  }

  /** The key of any 16-bit seed: the register clocked as often as its four selector bits say. */
  lemma KeyIsRegister(seed: nat)
    requires seed < 65536
    ensures var w := Word(seed);
            var k := 1 + Value([w[0], w[4], w[7], w[15]]);
            var t := Register(seed, k);
            Key(seed) == Value([!(t[k + 12] && t[k + 2])] + t[k + 1..])
  {
    hide Register, Value, Word, RoundCount, Rounds;
    RoundCountFromWord(seed);
    KeyFromRegister(seed, RoundCount(seed));
  }

  /** Keys worked out by hand: five rounds that only shift, one that feeds bit 15, one that clears
      bit 0. */
  lemma SomeKeys()
    ensures Key(0x0080) == 0x0005 && Key(0x0002) == 0x8001 && Key(0x2008) == 0x1004
  {
    hide Round, RoundCount;
    SomeRounds();
    assert Rounds(0x0080, 1) == 0x0041 && Rounds(0x0080, 2) == 0x0021 && Rounds(0x0080, 3) == 0x0011;
    assert Rounds(0x0080, 4) == 0x0009 && Rounds(0x0080, 5) == 0x0005;
    assert Rounds(0x0002, 1) == 0x8001 && Rounds(0x2008, 1) == 0x1004;
  }

  lemma SomeRounds()
    ensures RoundCount(0x0080) == 5 && RoundCount(0x0002) == 1 && RoundCount(0x2008) == 1
    ensures Round(0x0080) == 0x0041 && Round(0x0041) == 0x0021 && Round(0x0021) == 0x0011
    ensures Round(0x0011) == 0x0009 && Round(0x0009) == 0x0005
    ensures Round(0x0002) == 0x8001 && Round(0x2008) == 0x1004
  {
    hide Round, RoundCount;
    Round0080();
    Round0041();
    Round0021();
    Round0011();
    Round0009();
    FedRound();
    ClearedRound();
    CountOf(0x0080);
    CountOf(0x0002);
    CountOf(0x2008);
  }

  lemma CountOf(x: nat)
    requires x == 0x0080 || x == 0x0002 || x == 0x2008
    ensures RoundCount(x) == if x == 0x0080 then 5 else 1
  {
    hide Bit;
    BitsByHalves(x);
  }

  /** A round that neither feeds bit 15 nor clears bit 0. */
  lemma PlainRound(x: nat)
    requires Bit(13, x) == 0 && Bit(9, x) == 0 && Bit(8, x) == 0 && Bit(2, x) == 0 && Bit(1, x) == 0
    ensures Round(x) == x / 2 - x / 2 % 2 + 1
  {
    hide Bit;
  }

  lemma Round0080()
    ensures Round(0x0080) == 0x0041
  {
    hide Bit, Round;
    BitsByHalves(0x0080);
    PlainRound(0x0080);
  }

  lemma Round0041()
    ensures Round(0x0041) == 0x0021
  {
    hide Bit, Round;
    BitsByHalves(0x0041);
    PlainRound(0x0041);
  }

  lemma Round0021()
    ensures Round(0x0021) == 0x0011
  {
    hide Bit, Round;
    BitsByHalves(0x0021);
    PlainRound(0x0021);
  }

  lemma Round0011()
    ensures Round(0x0011) == 0x0009
  {
    hide Bit, Round;
    BitsByHalves(0x0011);
    PlainRound(0x0011);
  }

  lemma Round0009()
    ensures Round(0x0009) == 0x0005
  {
    hide Bit, Round;
    BitsByHalves(0x0009);
    PlainRound(0x0009);
  }

  lemma FedRound()
    ensures Round(0x0002) == 0x8001
  {
    hide Bit;
    BitsByHalves(0x0002);
    BitsByHalves(0x0001);
  }

  lemma ClearedRound()
    ensures Round(0x2008) == 0x1004
  {
    hide Bit;
    BitsByHalves(0x2008);
  }

  lemma {:induction false} ShiftOnce(x: nat, n: nat)
    ensures Shr(x, n + 1) == Shr(x, n) / 2
  {
    if n > 0 {
      ShiftOnce(x / 2, n - 1);
    }
  }

  /** Bit n is the parity of the word halved n times. */
  lemma BitsByHalves(x: nat)
    ensures Bit(0, x) == x % 2 && Bit(1, x) == x / 2 % 2 && Bit(2, x) == x / 2 / 2 % 2
    ensures var y := x / 2 / 2;
            && Bit(3, x) == y / 2 % 2 && Bit(4, x) == y / 2 / 2 % 2
            && var z := y / 2 / 2 / 2 / 2;
               && Bit(7, x) == z / 2 % 2 && Bit(8, x) == z / 2 / 2 % 2 && Bit(9, x) == z / 2 / 2 / 2 % 2
               && var u := z / 2 / 2 / 2 / 2 / 2;
                  Bit(13, x) == u / 2 / 2 % 2 && Bit(15, x) == u / 2 / 2 / 2 / 2 % 2
  {
    assert Shr(x, 0) == x;
    hide Shr;
    ShiftOnce(x, 0);
    ShiftOnce(x, 1);
    ShiftOnce(x, 2);
    ShiftOnce(x, 3);
    ShiftOnce(x, 4);
    ShiftOnce(x, 5);
    ShiftOnce(x, 6);
    ShiftOnce(x, 7);
    ShiftOnce(x, 8);
    ShiftOnce(x, 9);
    ShiftOnce(x, 10);
    ShiftOnce(x, 11);
    ShiftOnce(x, 12);
    ShiftOnce(x, 13);
    ShiftOnce(x, 14);
  }

  /** The first 16 - k bits above bit 0 come straight from the seed. */
  lemma {:induction false} RegisterKeepsSeed(seed: nat, k: nat)
    ensures Register(seed, k)[..16] == Word(seed)
  {
    if k == 0 {
      assert Register(seed, 0)[..16] == Word(seed);
    } else {
      RegisterKeepsSeed(seed, k - 1);
      assert Register(seed, k)[..16] == Register(seed, k - 1)[..16];
    }
  }

  lemma RoundsFit(seed: nat, k: nat)
    requires seed < 65536
    ensures Rounds(seed, k) < 65536
  {
    RoundsAreClocks(seed, k);
  }

  /** The key fits the two bytes of a 27 02 request, and they decode back to it. */
  lemma KeyFitsTwoBytes(seed: nat)
    requires seed < 65536
    ensures Key(seed) < 65536
    ensures Uint16(PutUint16(Key(seed))[0], PutUint16(Key(seed))[1]) == Key(seed)
  {
    RoundsFit(seed, RoundCount(seed));
    Uint16Fits(Key(seed));
  }

  // ---------------------------------------------------------------- the 27 01 / 27 02 exchange

  const SEED: seq<byte> := [0x67, 0x01]
  const SEND_KEY: seq<byte> := [0x27, 0x02]

  /** A seed reply long enough to carry a seed. */
  predicate SeedReply(payload: seq<byte>)
  {
    |payload| >= 4 && payload[..2] == SEED
  }

  function SeedOf(payload: seq<byte>): (seed: nat)
    requires SeedReply(payload)
    ensures seed < 65536
  {
    Uint16(payload[2], payload[3])
  }

  /** The key a handler stores for a seed: none is needed for seed 0. */
  function KeyFor(seed: nat): nat { if seed == 0 then 0 else Key(seed) }

  /** The key stored after a list of replies: that of the last seed among them. */
  function KeyAfter(replies: seq<seq<byte>>): nat
  {
    if replies == [] then 0
    else
      var last := replies[|replies| - 1];
      if SeedReply(last) then KeyFor(SeedOf(last)) else KeyAfter(replies[..|replies| - 1])
  }

  lemma KeyAfterSeed(handled: seq<seq<byte>>, i: nat)
    requires i < |handled| && SeedReply(handled[i])
    ensures KeyAfter(handled[..i + 1]) == KeyFor(SeedOf(handled[i]))
  {
    assert handled[..i + 1][i] == handled[i];
  }

  lemma KeyForFitsTwoBytes(seed: nat)
    requires seed < 65536
    ensures KeyFor(seed) < 65536
    ensures Uint16(PutUint16(KeyFor(seed))[0], PutUint16(KeyFor(seed))[1]) == KeyFor(seed)
  {
    if seed != 0 {
      KeyFitsTwoBytes(seed);
    }
  }
}
