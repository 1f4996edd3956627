/** Base 32 without padding (section 6 of RFC 4648), as the TOTP secrets are written: a 32-bit
    shift buffer whose stale high bits are never cleared. */
module Base32 {
  import opened Basics

  type Bit = b: int | 0 <= b < 2

  const ALPHABET := "ABCDEFGHIJKLMNOPQRSTUVWXYZ234567"
  const WORD := 0x1_0000_0000

  // ------------------------------------------------------------- specification

  // The lemmas below take the widths 8 and 5 as parameters `m` and `five` with the value
  // required: written as literals they would make the solver unroll `ToBits`.

  /** The `n` low bits of `v`, most significant first. */
  function ToBits(v: nat, n: nat): (bs: seq<Bit>)
    ensures |bs| == n
  {
    if n == 0 then [] else ToBits(v / 2, n - 1) + [v % 2]
  }

  function FromBits(bs: seq<Bit>): nat {
    if bs == [] then 0 else 2 * FromBits(bs[..|bs| - 1]) + bs[|bs| - 1]
  }

  function Zeros(n: nat): seq<Bit> {
    if n == 0 then [] else [0] + Zeros(n - 1)
  }

  /** The bits of a byte string, in order. */
  function BitsOf(data: seq<Byte>): (bs: seq<Bit>)
    ensures |bs| == 8 * |data|
  {
    if data == [] then [] else BitsOf(data[..|data| - 1]) + ToBits(data[|data| - 1], 8)
  }

  /** Bits in groups of five, the last one filled up with zeros. */
  function Group(bs: seq<Bit>): (qs: seq<nat>)
    ensures |qs| == (|bs| + 4) / 5
  {
    if bs == [] then []
    else if |bs| < 5 then [FromBits(bs + Zeros(5 - |bs|))]
    else [FromBits(bs[..5])] + Group(bs[5..])
  }

  function Letter(q: nat): char {
    if q < 32 then ALPHABET[q] else '?'
  }

  function Letters(qs: seq<nat>): (s: string)
    ensures |s| == |qs|
  {
    if qs == [] then "" else [Letter(qs[0])] + Letters(qs[1..])
  }

  /** The encoding of section 6 of RFC 4648 with the padding left off. */
  function Encoding(data: seq<Byte>): (s: string)
    ensures |s| == (8 * |data| + 4) / 5
  {
    Letters(Group(BitsOf(data)))
  }

  // ------------------------------------------------------------------- shifting

  function Shr(v: nat, k: nat): nat
    decreases k
  {
    if k == 0 then v else Shr(v / 2, k - 1)
  }

  /** `<<` on a 32-bit word. */
  function Shl(v: nat, k: nat): nat
    decreases k
  {
    if k == 0 then v else Shl((2 * v) % WORD, k - 1)
  }

  function Pow2(n: nat): (p: nat)
    ensures p >= 1
  {
    if n == 0 then 1 else 2 * Pow2(n - 1)
  }

  lemma {:induction false} SplitBits(v: nat, a: nat, c: nat)
    ensures ToBits(v, a + c) == ToBits(Shr(v, c), a) + ToBits(v, c)
    decreases c
  {
    if c == 0 {
      assert ToBits(v, a) + [] == ToBits(v, a);
    } else {
      SplitBits(v / 2, a, c - 1);
      var x, y := ToBits(Shr(v, c), a), ToBits(v / 2, c - 1);
      assert x + y + [v % 2] == x + (y + [v % 2]);
    }
  }

  lemma {:induction false} HalfMod(v: nat, p: nat)
    requires p >= 1
    ensures (v % (2 * p)) % 2 == v % 2 && (v % (2 * p)) / 2 == (v / 2) % p
  {
    var q, r := v / (2 * p), v % (2 * p);
    assert v == (2 * p) * q + r;
    assert v == 2 * (p * q) + r;
    assert v / 2 == p * q + r / 2;
    ModUnique(v / 2, p, q, r / 2);
  }

  lemma {:induction false} ModUnique(x: int, p: int, q: int, r: int)
    requires p >= 1 && x == p * q + r && 0 <= r < p
    ensures x % p == r
  {
    var d := x / p - q;
    assert p * (x / p) + x % p == x;
    assert p * d == p * (x / p) - p * q;
    if d >= 1 {
      AtLeast(p, d);
    } else if d <= -1 {
      AtLeast(p, -d);
    }
  }

  lemma {:induction false} AtLeast(p: int, d: int)
    requires p >= 1 && d >= 1
    ensures p * d >= p
  {}

  /** Bits beyond the ones looked at do not matter. */
  lemma {:induction false} ToBitsMod(v: nat, n: nat, m: nat)
    requires n <= m
    ensures ToBits(v % Pow2(m), n) == ToBits(v, n)
    decreases n
  {
    if n > 0 {
      HalfMod(v, Pow2(m - 1));
      ToBitsMod(v / 2, n - 1, m - 1);
    }
  }

  lemma {:induction false} WordIsPower()
    ensures Pow2(32) == WORD
  {
    assert Pow2(4) == 16;
    assert Pow2(8) == 16 * Pow2(4);
    assert Pow2(12) == 16 * Pow2(8);
    assert Pow2(16) == 16 * Pow2(12);
    assert Pow2(20) == 16 * Pow2(16);
    assert Pow2(24) == 16 * Pow2(20);
    assert Pow2(28) == 16 * Pow2(24);
    assert Pow2(32) == 16 * Pow2(28);
  }

  lemma {:induction false} ZerosSnoc(n: nat)
    ensures |Zeros(n)| == n && [0] + Zeros(n) == Zeros(n) + [0]
  {
    if n > 0 {
      ZerosSnoc(n - 1);
      assert [0] + Zeros(n) == [0] + (Zeros(n - 1) + [0]) == ([0] + Zeros(n - 1)) + [0];
    }
  }

  /** Doubling a word appends a zero bit. */
  lemma {:induction false} DoubledBits(v: nat, n: nat)
    requires n < 32
    ensures ToBits((2 * v) % WORD, n + 1) == ToBits(v, n) + [0]
  {
    WordIsPower();
    BitsInWord(2 * v, n + 1, 32);
    assert 2 * v / 2 == v && 2 * v % 2 == 0;
  }

  lemma {:induction false} BitsInWord(v: nat, n: nat, m: nat)
    requires n <= m && Pow2(m) == WORD
    ensures ToBits(v % WORD, n) == ToBits(v, n)
  {
    ToBitsMod(v, n, m);
  }

  /** Shifting left appends zeros as long as the bits looked at fit the word. */
  lemma {:induction false} ShlBits(v: nat, n: nat, k: nat)
    requires n + k <= 32
    ensures ToBits(Shl(v, k), n + k) == ToBits(v, n) + Zeros(k)
    decreases k
  {
    if k > 0 {
      DoubledBits(v, n);
      ShlBits((2 * v) % WORD, n + 1, k - 1);
      Assoc(ToBits(v, n), [0], Zeros(k - 1));
    }
  }

  lemma {:induction false} ShrEight(w: nat)
    ensures Shr(w, 8) == w / 256
  {
    assert Shr(w, 8) == Shr(w / 2, 7) == Shr(w / 2 / 2, 6) == Shr(w / 2 / 2 / 2, 5) == Shr(w / 2 / 2 / 2 / 2, 4);
    var h := w / 2 / 2 / 2 / 2;
    assert h == w / 16;
    assert Shr(h, 4) == Shr(h / 2, 3) == Shr(h / 2 / 2, 2) == Shr(h / 2 / 2 / 2, 1) == Shr(h / 2 / 2 / 2 / 2, 0);
    assert h / 2 / 2 / 2 / 2 == h / 16;
  }

  lemma {:induction false} PowEight()
    ensures Pow2(8) == 256
  {
    assert Pow2(4) == 16;
  }

  lemma {:induction false} SameLow(v: nat, w: nat, m: nat)
    requires v % Pow2(m) == w % Pow2(m)
    ensures ToBits(v, m) == ToBits(w, m)
  {
    ToBitsMod(v, m, m);
    ToBitsMod(w, m, m);
  }

  lemma {:induction false} LowByte(h: nat, byte: Byte)
    ensures (h * 256 + byte) % 256 == byte && (h * 256 + byte) / 256 == h
  {}

  /** A word made of a byte below other bits. */
  lemma {:induction false} WithByte(h: nat, byte: Byte, n: nat, m: nat)
    requires m == 8
    ensures ToBits(h * 256 + byte, n + m) == ToBits(h, n) + ToBits(byte, m)
  {
    var v := h * 256 + byte;
    SplitBits(v, n, m);
    assert Shr(v, m) == h by {
      ShrEight(v);
      LowByte(h, byte);
    }
    assert ToBits(v, m) == ToBits(byte, m) by {
      LowByte(h, byte);
      PowEight();
      SameLow(v, byte, m);
    }
  }

  lemma {:induction false} Cancel(a: seq<Bit>, b: seq<Bit>, c: seq<Bit>, d: seq<Bit>)
    requires a + b == c + d && |a| == |c|
    ensures a == c
  {
    assert a == (a + b)[..|a|];
    assert c == (c + d)[..|c|];
  }

  /** The bits above the free byte are the bits that were there before the shift. */
  lemma {:induction false} ShiftedHigh(bits: nat, h: nat, n: nat, m: nat)
    requires n <= 24 && m == 8 && Shl(bits, m) == h * 256
    ensures ToBits(h, n) == ToBits(bits, n)
  {
    ShlBits(bits, n, m);
    ZerosSnoc(m);
    WithByte(h, 0, n, m);
    assert h * 256 + 0 == Shl(bits, m);
    Cancel(ToBits(h, n), ToBits(0, m), ToBits(bits, n), Zeros(m));
  }

  /** `(bits << 8) | byte` appends the bits of the byte to the live bits. */
  lemma {:induction false} PushByte(bits: nat, n: nat, byte: Byte, m: nat)
    requires n <= 24 && m == 8
    ensures ToBits(Shl(bits, m) + byte, n + m) == ToBits(bits, n) + ToBits(byte, m)
  {
    var h := Shl(bits, 8) / 256;
    assert Shl(bits, m) == h * 256 by { ShlLowByte(bits); }
    ShiftedHigh(bits, h, n, m);
    WithByte(h, byte, n, m);
  }

  /** The low byte of a shifted word is free, so `|` adds. */
  lemma {:induction false} ShlLowByte(v: nat)
    ensures Shl(v, 8) / 256 * 256 == Shl(v, 8)
  {
    ShlBits(v, 0, 8);
    assert ToBits(v, 0) + Zeros(8) == Zeros(8);
    FromToBits(Shl(v, 8), 8);
    PowEight();
    ZerosValue(8);
  }

  lemma {:induction false} ZerosValue(n: nat)
    ensures FromBits(Zeros(n)) == 0
  {
    if n > 0 {
      ZerosSnoc(n - 1);
      ZerosValue(n - 1);
      assert Zeros(n) == Zeros(n - 1) + [0];
    }
  }

  lemma {:induction false} FromToBits(v: nat, n: nat)
    ensures FromBits(ToBits(v, n)) == v % Pow2(n)
    decreases n
  {
    if n > 0 {
      FromToBits(v / 2, n - 1);
      HalfMod(v, Pow2(n - 1));
      assert ToBits(v, n)[..n - 1] == ToBits(v / 2, n - 1);
    }
  }

  lemma {:induction false} ToFromBits(bs: seq<Bit>)
    ensures ToBits(FromBits(bs), |bs|) == bs
  {
    if bs != [] {
      ToFromBits(bs[..|bs| - 1]);
      assert bs == bs[..|bs| - 1] + [bs[|bs| - 1]];
    }
  }

  // ---------------------------------------------------------------- the encoder

  lemma {:induction false} LettersSnoc(qs: seq<nat>, q: nat)
    ensures Letters(qs + [q]) == Letters(qs) + [Letter(q)]
  {
    if qs == [] {
      assert qs + [q] == [q] && [q][1..] == [];
    } else {
      assert (qs + [q])[1..] == qs[1..] + [q];
      LettersSnoc(qs[1..], q);
    }
  }

  lemma {:induction false} GroupSnoc(bs: seq<Bit>, five: seq<Bit>)
    requires |bs| % 5 == 0 && 0 < |five| <= 5
    ensures Group(bs + five) == Group(bs) + [FromBits(five + Zeros(5 - |five|))]
  {
    if bs == [] {
      assert bs + five == five;
      if |five| == 5 {
        assert five[..5] == five && five[5..] == [] && five + Zeros(0) == five;
      }
    } else {
      assert (bs + five)[..5] == bs[..5] && (bs + five)[5..] == bs[5..] + five;
      GroupSnoc(bs[5..], five);
    }
  }

  lemma {:induction false} PowFive()
    ensures Pow2(5) == 32
  {
    assert Pow2(3) == 8;
  }

  /** Emitting five bits. */
  lemma {:induction false} EmitFive(done: seq<Bit>, v: nat, five: nat)
    requires |done| % 5 == 0 && five == 5
    ensures Letters(Group(done + ToBits(v, five))) == Letters(Group(done)) + [Letter(v % 32)]
  {
    var top := ToBits(v, five);
    GroupSnoc(done, top);
    assert top + Zeros(0) == top;
    FromToBits(v, five);
    PowFive();
    LettersSnoc(Group(done), v % 32);
  }

  /** The last, incomplete group. */
  lemma {:induction false} EmitRest(done: seq<Bit>, bits: nat, count: nat, gap: nat)
    requires |done| % 5 == 0 && 0 < count < 5 && count + gap == 5
    ensures Letters(Group(done + ToBits(bits, count)))
            == Letters(Group(done)) + [Letter(Shl(bits, gap) % 32)]
  {
    GroupSnoc(done, ToBits(bits, count));
    ShlBits(bits, count, gap);
    FromToBits(Shl(bits, gap), count + gap);
    PowFive();
    LettersSnoc(Group(done), Shl(bits, gap) % 32);
  }

  /** The output covers `done`; the `count` low bits of the buffer are still to come. */
  ghost predicate Covers(data: seq<Byte>, done: seq<Bit>, bits: nat, count: nat, result: string) {
    BitsOf(data) == done + ToBits(bits, count) && |done| % 5 == 0 && result == Letters(Group(done))
  }

  lemma {:induction false} BitsOfSnoc(data: seq<Byte>, i: nat)
    requires i < |data|
    ensures BitsOf(data[..i + 1]) == BitsOf(data[..i]) + ToBits(data[i], 8)
  {
    assert data[..i + 1][..i] == data[..i];
  }

  lemma {:induction false} BitsPushed(data: seq<Byte>, i: nat, done: seq<Bit>, bits: nat, count: nat, m: nat)
    requires i < |data| && count < 5 && m == 8 && BitsOf(data[..i]) == done + ToBits(bits, count)
    ensures BitsOf(data[..i + 1]) == done + ToBits(Shl(bits, m) + data[i], count + m)
  {
    BitsOfSnoc(data, i);
    PushByte(bits, count, data[i], m);
    Assoc(done, ToBits(bits, count), ToBits(data[i], m));
  }

  lemma {:induction false} CoversByte(data: seq<Byte>, i: nat, done: seq<Bit>, bits: nat, count: nat, result: string, m: nat)
    requires i < |data| && count < 5 && m == 8 && Covers(data[..i], done, bits, count, result)
    ensures Covers(data[..i + 1], done, Shl(bits, m) + data[i], count + m, result)
  {
    BitsPushed(data, i, done, bits, count, m);
  }

  /** The buffer's live bits are five bits `v` and the rest: the five can go out. */
  lemma {:induction false} CoversTop(data: seq<Byte>, done: seq<Bit>, v: nat, bits: nat, count: nat, result: string, five: nat)
    requires five == 5 && Covers(data, done, bits, five + count, result)
    requires ToBits(bits, five + count) == ToBits(v, five) + ToBits(bits, count)
    ensures Covers(data, done + ToBits(v, five), bits, count, result + [Letter(v % 32)])
  {
    var top := ToBits(v, five);
    Assoc(done, top, ToBits(bits, count));
    assert Letters(Group(done + top)) == result + [Letter(v % 32)] by { EmitFive(done, v, five); }
    FiveMore(|done|, |done + top|);
  }

  lemma {:induction false} FiveMore(a: nat, b: nat)
    requires a % 5 == 0 && b == a + 5
    ensures b % 5 == 0
  {}

  lemma {:induction false} CoversFive(data: seq<Byte>, done: seq<Bit>, bits: nat, count: nat, result: string, five: nat)
    requires five == 5 && Covers(data, done, bits, five + count, result)
    ensures Covers(data, done + ToBits(Shr(bits, count), five), bits, count, result + [Letter(Shr(bits, count) % 32)])
  {
    SplitBits(bits, five, count);
    CoversTop(data, done, Shr(bits, count), bits, count, result, five);
  }

  lemma {:induction false} CoversAll(data: seq<Byte>, done: seq<Bit>, bits: nat, count: nat, result: string)
    requires count < 5 && Covers(data, done, bits, count, result)
    ensures Encoding(data) == if count > 0 then result + [Letter(Shl(bits, 5 - count) % 32)] else result
  {
    if count > 0 {
      EmitRest(done, bits, count, 5 - count);
    } else {
      assert done + ToBits(bits, 0) == done;
    }
  }

  /** The inner loop: whole groups of five go out. */
  method EmitGroups(bits: nat, held: nat, written: string, ghost data: seq<Byte>, ghost sofar: seq<Bit>)
    returns (count: nat, result: string, ghost done: seq<Bit>)
    requires Covers(data, sofar, bits, held, written)
    ensures count < 5 && Covers(data, done, bits, count, result)
  {
    count, result, done := held, written, sofar;
    ghost var five := 5;
    while count >= 5
      invariant Covers(data, done, bits, count, result)
    {
      count := count - 5;
      CoversFive(data, done, bits, count, result, five);
      done := done + ToBits(Shr(bits, count), five);
      result := result + [ALPHABET[Shr(bits, count) % 32]];
    }
  }

  /** `base32_encode` */
  method Encode(data: seq<Byte>) returns (result: string)
    ensures result == Encoding(data)
  {
    result := "";
    var bits: nat, count: nat := 0, 0;
    ghost var done: seq<Bit> := [];
    var i := 0;
    while i < |data|
      invariant 0 <= i <= |data| && count < 5
      invariant Covers(data[..i], done, bits, count, result)
    {
      CoversByte(data, i, done, bits, count, result, 8);
      bits := Shl(bits, 8) + data[i];
      count, result, done := EmitGroups(bits, count + 8, result, data[..i + 1], done);
      i := i + 1;
    }
    assert data[..i] == data;
    CoversAll(data, done, bits, count, result);
    if count > 0 {
      result := result + [ALPHABET[Shl(bits, 5 - count) % 32]];
    }
  }

  // ------------------------------------------------------------- the inverse

  function QuintetOf(c: char): nat {
    if 'A' <= c <= 'Z' then (c - 'A') as nat
    else if '2' <= c <= '7' then (c - '2') as nat + 26
    else 0
  }

  /** The bits a text stands for, five to a letter. */
  function BitsIn(s: string): (bs: seq<Bit>)
    ensures |bs| == 5 * |s|
  {
    if s == "" then [] else ToBits(QuintetOf(s[0]), 5) + BitsIn(s[1..])
  }

  /** Whole bytes; what is left over at the end is dropped. */
  function BytesIn(bs: seq<Bit>): seq<nat> {
    if |bs| < 8 then [] else [FromBits(bs[..8])] + BytesIn(bs[8..])
  }

  function Decoding(s: string): seq<nat> {
    BytesIn(BitsIn(s))
  }

  lemma {:induction false} LetterInverse(q: nat)
    requires q < 32
    ensures QuintetOf(Letter(q)) == q
  {}

  lemma {:induction false} FromBitsBound(bs: seq<Bit>)
    ensures FromBits(bs) < Pow2(|bs|)
  {
    if bs != [] { FromBitsBound(bs[..|bs| - 1]); }
  }

  /** Five bits survive the trip through a letter. */
  lemma {:induction false} FiveBits(five: seq<Bit>)
    requires |five| == 5
    ensures ToBits(QuintetOf(Letter(FromBits(five))), 5) == five
  {
    FromBitsBound(five);
    PowFive();
    LetterInverse(FromBits(five));
    ToFromBits(five);
  }

  lemma {:induction false} LastGroup(bs: seq<Bit>, pad: nat)
    requires 0 < |bs| < 5 && |bs| + pad == 5
    ensures BitsIn(Letters(Group(bs))) == bs + Zeros(pad)
  {
    ZerosSnoc(pad);
    var five := bs + Zeros(pad);
    FiveBits(five);
    var c := Letter(FromBits(five));
    assert Letters(Group(bs)) == [c] by {
      var qs := [FromBits(five)];
      assert Group(bs) == qs && qs[1..] == [];
    }
    BitsInOne(c);
  }

  lemma {:induction false} BitsInOne(c: char)
    ensures BitsIn([c]) == ToBits(QuintetOf(c), 5)
  {
    assert [c][1..] == "";
    assert BitsIn("") == [];
  }

  lemma {:induction false} Regroup(bs: seq<Bit>) returns (pad: nat)
    ensures pad < 5 && BitsIn(Letters(Group(bs))) == bs + Zeros(pad)
  {
    if bs == [] {
      pad := 0;
    } else if |bs| < 5 {
      pad := 5 - |bs|;
      LastGroup(bs, pad);
    } else {
      pad := Regroup(bs[5..]);
      FiveBits(bs[..5]);
      assert Letters(Group(bs))[1..] == Letters(Group(bs[5..]));
      Assoc(bs[..5], bs[5..], Zeros(pad));
      assert bs[..5] + bs[5..] == bs;
    }
  }

  lemma {:induction false} BytesInStep(bs: seq<Bit>, rest: seq<Bit>)
    requires |bs| == 8
    ensures BytesIn(bs + rest) == [FromBits(bs)] + BytesIn(rest)
  {
    assert (bs + rest)[..8] == bs;
    assert (bs + rest)[8..] == rest;
  }

  lemma {:induction false} BytesInCons(b: Byte, rest: seq<Bit>, m: nat)
    requires m == 8
    ensures BytesIn(ToBits(b, m) + rest) == [b] + BytesIn(rest)
  {
    ByteBack(b, m);
    BytesInStep(ToBits(b, m), rest);
  }

  lemma {:induction false} ByteBack(b: Byte, m: nat)
    requires m == 8
    ensures FromBits(ToBits(b, m)) == b
  {
    FromToBits(b, m);
    PowEight();
  }

  lemma {:induction false} BytesBack(data: seq<Byte>, tail: seq<Bit>)
    requires |tail| < 8
    ensures BytesIn(BitsOf(data) + tail) == data
    decreases |data|
  {
    if data == [] {
      assert BitsOf(data) + tail == tail;
    } else {
      var m := 8;
      BitsOfCons(data);
      Assoc(ToBits(data[0], m), BitsOf(data[1..]), tail);
      BytesInCons(data[0], BitsOf(data[1..]) + tail, m);
      BytesBack(data[1..], tail);
      assert data == [data[0]] + data[1..];
    }
  }

  lemma {:induction false} BitsOfCons(data: seq<Byte>)
    requires data != []
    ensures BitsOf(data) == ToBits(data[0], 8) + BitsOf(data[1..])
  {
    var n := |data| - 1;
    if n == 0 {
      assert data[..0] == [] && data[1..] == [];
      assert [] + ToBits(data[0], 8) == ToBits(data[0], 8) + [];
    } else {
      BitsOfCons(data[..n]);
      var mid := data[1..][..n - 1];
      assert mid == data[..n][1..];
      Assoc(ToBits(data[0], 8), BitsOf(mid), ToBits(data[n], 8));
    }
  }

  /** Decoding inverts encoding for every byte string. */
  lemma {:induction false} RoundTrip(data: seq<Byte>)
    ensures Decoding(Encoding(data)) == data
  {
    var pad := Regroup(BitsOf(data));
    ZerosSnoc(pad);
    BytesBack(data, Zeros(pad));
  }

  // ------------------------------------------------ the layout of section 6, by numbers

  lemma {:induction false} ShrStep(v: nat, k: nat)
    requires k > 0
    ensures Shr(v, k) == Shr(v / 2, k - 1)
  {}

  lemma {:induction false} ShlStep(v: nat, k: nat)
    requires k > 0 && 2 * v < WORD
    ensures Shl(v, k) == Shl(2 * v, k - 1)
  {}

  lemma {:induction false} ShrThree(v: nat, k: nat)
    requires k == 3
    ensures Shr(v, k) == v / 8
  {
    ShrStep(v, k);
    ShrStep(v / 2, k - 1);
    ShrStep(v / 4, k - 2);
  }

  lemma {:induction false} ShrSix(v: nat, k: nat)
    requires k == 6
    ensures Shr(v, k) == v / 64
  {
    ShrStep(v, k);
    ShrStep(v / 2, k - 1);
    ShrStep(v / 4, k - 2);
    ShrThree(v / 8, k - 3);
  }

  lemma {:induction false} ShrOne(v: nat, k: nat)
    requires k == 1
    ensures Shr(v, k) == v / 2
  {
    ShrStep(v, k);
  }

  lemma {:induction false} ShlTwo(v: nat, k: nat)
    requires k == 2 && v < 0x100_0000
    ensures Shl(v, k) == 4 * v
  {
    ShlStep(v, k);
    ShlStep(2 * v, k - 1);
  }

  lemma {:induction false} ShlTwoMore(v: nat, k: nat)
    requires k >= 2 && v < 0x100_0000
    ensures Shl(v, k) == Shl(4 * v, k - 2)
  {
    ShlStep(v, k);
    ShlStep(2 * v, k - 1);
  }

  lemma {:induction false} ShlFourMore(v: nat, k: nat)
    requires k >= 4 && v < 0x10_0000
    ensures Shl(v, k) == Shl(16 * v, k - 4)
  {
    ShlTwoMore(v, k);
    ShlTwoMore(4 * v, k - 2);
  }

  lemma {:induction false} ShlNone(v: nat, k: nat)
    requires k == 0
    ensures Shl(v, k) == v
  {}

  lemma {:induction false} ShlFour(v: nat, k: nat)
    requires k == 4 && v < 0x10_0000
    ensures Shl(v, k) == 16 * v
  {
    ShlFourMore(v, k);
    ShlNone(16 * v, k - 4);
  }

  lemma {:induction false} ShlByte(x: nat, k: nat)
    requires k == 8 && x < 0x100
    ensures Shl(x, k) == 256 * x
  {
    ShlFourMore(x, k);
    ShlFour(16 * x, k - 4);
  }

  lemma {:induction false} FirstByte(data: seq<Byte>, zero: nat, eight: nat)
    requires data != [] && zero == 0 && eight == 8
    ensures Covers(data[..1], [], data[0], eight, "")
  {
    var none: seq<Byte> := data[..0];
    assert none == [] && Covers(none, [], zero, zero, "") by { assert [] + ToBits(zero, zero) == []; }
    ShlZero(eight);
    CoversByte(data, 0, [], zero, zero, "", eight);
  }

  lemma {:induction false} ShlZero(k: nat)
    ensures Shl(0, k) == 0
  {
    if k > 0 { ShlZero(k - 1); }
  }

  /** After the first byte: its five high bits are out, three are held. */
  lemma {:induction false} AfterFirst(data: seq<Byte>, three: nat, five: nat) returns (done: seq<Bit>)
    requires data != [] && three == 3 && five == 5
    ensures Covers(data[..1], done, data[0], three, [Letter(data[0] / 8)])
  {
    FirstByte(data, 0, five + three);
    done := FirstFive(data[..1], data[0], three, five);
  }

  lemma {:induction false} FirstFive(data: seq<Byte>, x: nat, three: nat, five: nat) returns (done: seq<Bit>)
    requires three == 3 && five == 5 && x < 256 && Covers(data, [], x, five + three, "")
    ensures Covers(data, done, x, three, [Letter(x / 8)])
  {
    ShrThree(x, three);
    SmallMod(x / 8);
    var none: seq<Bit> := [];
    CoversFive(data, none, x, three, "", five);
    Alone(Letter(x / 8));
    done := none + ToBits(Shr(x, three), five);
  }

  lemma {:induction false} SmallMod(q: nat)
    requires q < 32
    ensures q % 32 == q
  {}

  lemma {:induction false} Alone(c: char)
    ensures "" + [c] == [c]
  {}

  /** One byte: its five high bits, then its three low bits and two zeros. */
  lemma {:induction false} OneByte(x: Byte)
    ensures Encoding([x]) == [Letter(x / 8), Letter(x % 8 * 4)]
  {
    var data: seq<Byte>, two, three, five := [x], 2, 3, 5;
    var done := AfterFirst(data, three, five);
    assert data[..1] == data;
    CoversAll(data, done, x, three, [Letter(x / 8)]);
    ShlTwo(x, two);
    FourTimes(x);
  }

  lemma {:induction false} FourTimes(x: Byte)
    ensures 4 * x % 32 == x % 8 * 4
  {
    assert 4 * x == 32 * (x / 8) + 4 * (x % 8);
  }

  lemma {:induction false} DivMod(v: nat, p: nat, q: nat, r: nat)
    requires p >= 1 && v == p * q + r && r < p
    ensures v / p == q && v % p == r
  {
    ModUnique(v, p, q, r);
    assert p * (v / p) == p * q;
    SameFactor(p, v / p, q);
  }

  lemma {:induction false} SameFactor(p: nat, a: nat, b: nat)
    requires p >= 1 && p * a == p * b
    ensures a == b
  {
    if a < b { AtLeast(p, b - a); }
    if b < a { AtLeast(p, a - b); }
  }

  /** The low bits of the word 256 x + y. */
  lemma {:induction false} WordParts(x: Byte, y: Byte, w: nat)
    requires w == 256 * x + y
    ensures w / 64 % 32 == x % 8 * 4 + y / 64 && w / 2 % 32 == y / 2 % 32 && 16 * w % 32 == y % 2 * 16
  {
    DivMod(w, 64, 4 * x + y / 64, y % 64);
    DivMod(4 * x + y / 64, 32, x / 8, x % 8 * 4 + y / 64);
    DivMod(w, 2, 128 * x + y / 2, y % 2);
    DivMod(128 * x + y / 2, 32, 4 * x + y / 2 / 32, y / 2 % 32);
    DivMod(16 * w, 32, 128 * x + y / 2, y % 2 * 16);
  }

  /** Two bytes: three full groups, then one bit and four zeros. */
  lemma {:induction false} TwoBytes(x: Byte, y: Byte)
    ensures Encoding([x, y])
            == [Letter(x / 8), Letter(x % 8 * 4 + y / 64), Letter(y / 2 % 32), Letter(y % 2 * 16)]
  {
    var data: seq<Byte>, one, three, four, five, six, eight := [x, y], 1, 3, 4, 5, 6, 8;
    var w := 256 * x + y;
    assert data[..1 + 1] == data;
    var a := AfterFirst(data, three, five);
    ShlByte(x, eight);
    CoversByte(data, 1, a, x, three, [Letter(x / 8)], eight);
    TwoHeld(data, x, y, w, a, one, four, five, six);
  }

  /** From the second byte in the buffer to the end. */
  lemma {:induction false} TwoHeld(data: seq<Byte>, x: Byte, y: Byte, w: nat, a: seq<Bit>, one: nat, four: nat, five: nat, six: nat)
    requires one == 1 && four == 4 && five == 5 && six == 6 && w == 256 * x + y
    requires Covers(data, a, w, five + six, [Letter(x / 8)])
    ensures Encoding(data)
            == [Letter(x / 8), Letter(x % 8 * 4 + y / 64), Letter(y / 2 % 32), Letter(y % 2 * 16)]
  {
    var p, q := x % 8 * 4 + y / 64, y / 2 % 32;
    ShrSix(w, six);
    ShrOne(w, one);
    ShlFour(w, four);
    WordParts(x, y, w);
    CoversFive(data, a, w, six, [Letter(x / 8)], five);
    var b := a + ToBits(Shr(w, six), five);
    assert [Letter(x / 8)] + [Letter(p)] == [Letter(x / 8), Letter(p)];
    CoversFive(data, b, w, one, [Letter(x / 8), Letter(p)], five);
    var c := b + ToBits(Shr(w, one), five);
    assert [Letter(x / 8), Letter(p)] + [Letter(q)] == [Letter(x / 8), Letter(p), Letter(q)];
    CoversAll(data, c, w, one, [Letter(x / 8), Letter(p), Letter(q)]);
  }

  lemma {:induction false} LetterAt(q: nat, r: nat)
    requires q == r < 32
    ensures Letter(q) == "ABCDEFGHIJKLMNOPQRSTUVWXYZ234567"[r]
  {}

  /** From section 10 of RFC 4648, the padding left off: "f" is "MY", "fo" is "MZXQ". */
  lemma {:induction false} Vectors(f: Byte, o: Byte)
    requires f == 'f' as int && o == 'o' as int
    ensures Encoding([f]) == "MY" && Encoding([f, o]) == "MZXQ"
  {
    OneByte(f);
    TwoBytes(f, o);
    LetterAt(f / 8, 12);
    LetterAt(f % 8 * 4, 24);
    LetterAt(f % 8 * 4 + o / 64, 25);
    LetterAt(o / 2 % 32, 23);
    LetterAt(o % 2 * 16, 16);
  }
}
