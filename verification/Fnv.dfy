/** The hash of a canonical form: FNV-1a over 64 bits, rendered as 16 lower-case hexadecimal digits
    (`fnv1a64_hex`). */
module Fnv {

  const WORD := 0x1_0000_0000_0000_0000
  const OFFSET := 0xcbf2_9ce4_8422_2325
  const PRIME := 0x0000_0100_0000_01b3
  /** The inverse of the prime modulo 2^64. */
  const INVERSE := 0xce96_5057_aff6_957b

  type U64 = n: int | 0 <= n < WORD

  type Byte = n: int | 0 <= n < 256

  /** Bitwise exclusive or. */
  function Xor(x: nat, y: nat): nat
    decreases x + y
  {
    if x == 0 then y else if y == 0 then x
    else 2 * Xor(x / 2, y / 2) + if x % 2 == y % 2 then 0 else 1
  }

  lemma {:induction false} XorBelow(x: nat, y: nat, bits: nat)
    requires x < Pow2(bits) && y < Pow2(bits)
    ensures Xor(x, y) < Pow2(bits)
    decreases bits
  {
    if x != 0 && y != 0 { XorBelow(x / 2, y / 2, bits - 1); }
  }

  function Pow2(n: nat): nat {
    if n == 0 then 1 else 2 * Pow2(n - 1)
  }

  predicate Bit(x: nat, k: nat) {
    if k == 0 then x % 2 == 1 else Bit(x / 2, k - 1)
  }

  lemma {:induction false} ZeroBits(k: nat)
    ensures !Bit(0, k)
  {
    if k > 0 { ZeroBits(k - 1); }
  }

  /** A bit of the result is set exactly when it is set in one of the two numbers. */
  lemma {:induction false} XorBits(x: nat, y: nat, k: nat)
    ensures Bit(Xor(x, y), k) <==> Bit(x, k) != Bit(y, k)
    decreases x + y
  {
    if x == 0 || y == 0 {
      ZeroBits(k);
    } else if k > 0 {
      XorBits(x / 2, y / 2, k - 1);
      assert Xor(x, y) / 2 == Xor(x / 2, y / 2);
    }
  }

  /** Exclusive or with one number is undone by doing it again. */
  lemma {:induction false} XorUndone(x: nat, y: nat)
    ensures Xor(Xor(x, y), y) == x
    decreases x + y
  {
    if x != 0 && y != 0 {
      XorUndone(x / 2, y / 2);
      var half, low := Xor(x / 2, y / 2), if x % 2 == y % 2 then 0 else 1;
      assert Xor(x, y) == 2 * half + low && Xor(x, y) / 2 == half && Xor(x, y) % 2 == low;
      if half == 0 && low == 0 {
        assert Xor(0, y) == y && Xor(half, y / 2) == y / 2 == x / 2;
      }
    } else if x == 0 {
      XorSelf(y);
    }
  }

  lemma {:induction false} XorSelf(y: nat)
    ensures Xor(y, y) == 0
  {
    if y != 0 { XorSelf(y / 2); }
  }

  lemma XorCommutes(x: nat, y: nat)
    ensures Xor(x, y) == Xor(y, x)
    decreases x + y
  {
  }

  function Times(x: U64): U64 {
    (x * PRIME) % WORD
  }

  lemma ModMultiple(x: int, m: int)
    requires 0 <= x < WORD
    ensures (x + WORD * m) % WORD == x
  {
  }

  /** Multiplying by the inverse of the prime undoes the multiplication. */
  lemma TimesUndone(x: U64)
    ensures (Times(x) * INVERSE) % WORD == x
  {
    var wraps := (x * PRIME) / WORD;
    assert Times(x) == x * PRIME - WORD * wraps;
    var k := 0xce9650590f;
    assert PRIME * INVERSE == 1 + k * WORD;
    Unwrap(x, wraps, PRIME, INVERSE, k);
    ModMultiple(x, k * x - wraps * INVERSE);
  }

  lemma Unwrap(x: int, wraps: int, p: int, q: int, k: int)
    requires p * q == 1 + k * WORD
    ensures (x * p - WORD * wraps) * q == x + WORD * (k * x - wraps * q)
  {
    calc {
      (x * p - WORD * wraps) * q;
      (x * p) * q - (WORD * wraps) * q;
      x * (p * q) - WORD * (wraps * q);
      x * (1 + k * WORD) - WORD * (wraps * q);
      x + WORD * (k * x) - WORD * (wraps * q);
      x + WORD * (k * x - wraps * q);
    }
  }

  /** One round of the loop. */
  function Round(h: U64, b: Byte): U64 {
    XorBelow64(h, b);
    Times(Xor(h, b))
  }

  lemma XorBelow64(h: U64, b: Byte)
    ensures 0 <= Xor(h, b) < WORD
  {
    assert Pow2(4) == 16;
    assert Pow2(8) == 256 by { PowSum(4, 4); }
    assert Pow2(16) == 65536 by { PowSum(8, 8); }
    assert Pow2(32) == 65536 * 65536 by { PowSum(16, 16); }
    assert Pow2(64) == WORD by { PowSum(32, 32); }
    XorBelow(h, b, 64);
  }

  lemma {:induction false} PowSum(m: nat, n: nat)
    ensures Pow2(m + n) == Pow2(m) * Pow2(n)
  {
    if m != 0 { PowSum(m - 1, n); }
  }

  function Rounds(h: U64, bytes: seq<Byte>): U64
    decreases bytes
  {
    if bytes == [] then h else Rounds(Round(h, bytes[0]), bytes[1..])
  }

  lemma {:induction false} RoundsAppend(h: U64, s: seq<Byte>, t: seq<Byte>)
    ensures Rounds(h, s + t) == Rounds(Rounds(h, s), t)
    decreases s
  {
    if s == [] {
      assert s + t == t;
    } else {
      assert (s + t)[1..] == s[1..] + t && (s + t)[0] == s[0];
      RoundsAppend(Round(h, s[0]), s[1..], t);
    }
  }

  method Hash(bytes: seq<Byte>) returns (h: U64)
    ensures h == Rounds(OFFSET, bytes)
  {
    h := OFFSET;
    for i := 0 to |bytes|
      invariant Rounds(h, bytes[i..]) == Rounds(OFFSET, bytes)
    {
      assert bytes[i..][0] == bytes[i] && bytes[i..][1..] == bytes[i + 1..];
      h := Round(h, bytes[i]);
    }
  }

  /** A round loses nothing of the state, nor of the byte. */
  lemma RoundInjective(h: U64, b: Byte, h': U64, b': Byte)
    requires Round(h, b) == Round(h', b')
    ensures b == b' ==> h == h'
    ensures h == h' ==> b == b'
  {
    XorBelow64(h, b);
    XorBelow64(h', b');
    TimesUndone(Xor(h, b));
    TimesUndone(Xor(h', b'));
    XorUndone(h, b);
    XorUndone(h', b');
    XorCommutes(h, b);
    XorCommutes(h', b');
    XorUndone(b, h);
    XorUndone(b', h');
  }

  /** For any fixed rest of the input the hash is injective in the state it starts the rest from. */
  lemma {:induction false} RoundsInjective(h: U64, h': U64, rest: seq<Byte>)
    requires Rounds(h, rest) == Rounds(h', rest)
    ensures h == h'
    decreases rest
  {
    if rest != [] {
      RoundsInjective(Round(h, rest[0]), Round(h', rest[0]), rest[1..]);
      RoundInjective(h, rest[0], h', rest[0]);
    }
  }

  /** Inputs that differ in exactly one byte never share a hash. */
  lemma OneByteTells(before: seq<Byte>, x: Byte, y: Byte, rest: seq<Byte>)
    requires x != y
    ensures Rounds(OFFSET, before + [x] + rest) != Rounds(OFFSET, before + [y] + rest)
  {
    var h := Rounds(OFFSET, before);
    RoundsAppend(OFFSET, before + [x], rest);
    RoundsAppend(OFFSET, before, [x]);
    RoundsAppend(OFFSET, before + [y], rest);
    RoundsAppend(OFFSET, before, [y]);
    assert Rounds(h, [x]) == Round(h, x) by { assert [x][1..] == []; }
    assert Rounds(h, [y]) == Round(h, y) by { assert [y][1..] == []; }
    if Rounds(OFFSET, before + [x] + rest) == Rounds(OFFSET, before + [y] + rest) {
      RoundsInjective(Round(h, x), Round(h, y), rest);
      RoundInjective(h, x, h, y);
    }
  }

  function HexDigit(d: nat): char
    requires d < 16
  {
    if d < 10 then '0' + d as char else 'a' + (d - 10) as char
  }

  function HexDigits(n: nat, width: nat): (s: string)
    ensures |s| == width
  {
    if width == 0 then "" else HexDigits(n / 16, width - 1) + [HexDigit(n % 16)]
  }

  function Pow16(n: nat): nat {
    if n == 0 then 1 else 16 * Pow16(n - 1)
  }

  /** Zero-padded hexadecimal of a fixed width tells all numbers apart that fit. */
  lemma {:induction false} HexInjective(m: nat, n: nat, width: nat)
    requires m < Pow16(width) && n < Pow16(width) && HexDigits(m, width) == HexDigits(n, width)
    ensures m == n
  {
    if width != 0 {
      var s, t := HexDigits(m, width), HexDigits(n, width);
      assert s[..width - 1] == HexDigits(m / 16, width - 1) && t[..width - 1] == HexDigits(n / 16, width - 1);
      HexInjective(m / 16, n / 16, width - 1);
      assert s[width - 1] == HexDigit(m % 16) && t[width - 1] == HexDigit(n % 16);
    }
  }

  /** `fnv1a64_hex`. */
  function HashHex(bytes: seq<Byte>): string {
    HexDigits(Rounds(OFFSET, bytes), 16)
  }

  /** The rendered hashes of inputs that differ in exactly one byte differ. */
  lemma OneByteTellsHex(before: seq<Byte>, x: Byte, y: Byte, rest: seq<Byte>)
    requires x != y
    ensures HashHex(before + [x] + rest) != HashHex(before + [y] + rest)
  {
    OneByteTells(before, x, y, rest);
    var m, n := Rounds(OFFSET, before + [x] + rest), Rounds(OFFSET, before + [y] + rest);
    assert Pow16(8) == 0x1_0000_0000;
    assert Pow16(16) == WORD by {
      assert Pow16(9) == 16 * Pow16(8) && Pow16(10) == 16 * Pow16(9) && Pow16(11) == 16 * Pow16(10) &&
             Pow16(12) == 16 * Pow16(11) && Pow16(13) == 16 * Pow16(12) && Pow16(14) == 16 * Pow16(13) &&
             Pow16(15) == 16 * Pow16(14) && Pow16(16) == 16 * Pow16(15);
    }
    if HashHex(before + [x] + rest) == HashHex(before + [y] + rest) {
      HexInjective(m, n, 16);
    }
  }

  /** What one more byte does to the hash: undoing the multiplication leaves the hash so far, with the byte's bits flipped. */
  lemma OneMoreByte(s: seq<Byte>, b: Byte, k: nat)
    ensures Bit((Rounds(OFFSET, s + [b]) * INVERSE) % WORD, k) <==> Bit(Rounds(OFFSET, s), k) != Bit(b, k)
  {
    var h := Rounds(OFFSET, s);
    RoundsAppend(OFFSET, s, [b]);
    assert Rounds(h, [b]) == Round(h, b) by { assert [b][1..] == []; }
    XorBelow64(h, b);
    TimesUndone(Xor(h, b));
    XorBits(h, b, k);
  }

  function Shift(n: nat, bits: nat): nat {
    if bits == 0 then n else 2 * Shift(n, bits - 1)
  }

  lemma XorHalves(high: nat, x: nat, y: nat)
    requires Xor(high + x / 2, y / 2) == high + Xor(x / 2, y / 2)
    ensures Xor(2 * high + x, y) == 2 * high + Xor(x, y)
  {
    assert (2 * high + x) / 2 == high + x / 2 && (2 * high + x) % 2 == x % 2;
    XorStep(2 * high + x, y);
    XorStep(x, y);
  }

  lemma XorStep(x: nat, y: nat)
    ensures Xor(x, y) == 2 * Xor(x / 2, y / 2) + if x % 2 == y % 2 then 0 else 1
  {
  }

  /** Exclusive or with a number of few bits leaves the bits above them. */
  lemma {:induction false} XorLow(n: nat, x: nat, y: nat, bits: nat)
    requires x < Pow2(bits) && y < Pow2(bits)
    ensures Xor(Shift(n, bits) + x, y) == Shift(n, bits) + Xor(x, y)
    decreases bits
  {
    if bits > 0 {
      XorLow(n, x / 2, y / 2, bits - 1);
      XorHalves(Shift(n, bits - 1), x, y);
    }
  }

  lemma ShiftByte(n: nat)
    ensures Shift(n, 8) == 256 * n
  {
    assert Shift(n, 1) == 2 * n && Shift(n, 2) == 2 * Shift(n, 1) && Shift(n, 3) == 2 * Shift(n, 2);
    assert Shift(n, 4) == 2 * Shift(n, 3) && Shift(n, 5) == 2 * Shift(n, 4) && Shift(n, 6) == 2 * Shift(n, 5);
    assert Shift(n, 7) == 2 * Shift(n, 6);
  }

  lemma RoundIs(n: nat, x: Byte, b: Byte, low: Byte, wraps: nat, next: U64)
    requires 256 * n + x < WORD && Xor(x, b) == low && (256 * n + low) * PRIME == WORD * wraps + next
    ensures Round(256 * n + x, b) == next
  {
    assert Pow2(4) == 16;
    assert Pow2(8) == 256 by { PowSum(4, 4); }
    ShiftByte(n);
    XorLow(n, x, b, 8);
    ModMultiple(next, wraps);
  }

  lemma RoundsNext(h: U64, bytes: seq<Byte>, next: U64)
    requires bytes != [] && Round(h, bytes[0]) == next
    ensures Rounds(h, bytes) == Rounds(next, bytes[1..])
  {
  }

  // The exclusive ors of the hashes below, the upper bits first.

  lemma XorStepA()
    ensures Xor(0x25, 0x61) == 0x44
  {
    assert Xor(0x2, 0x6) == 0x4 && Xor(0x9, 0x18) == 0x11;
  }

  lemma XorStep1()
    ensures Xor(0x25, 0x66) == 0x43
  {
    assert Xor(0x2, 0x6) == 0x4 && Xor(0x9, 0x19) == 0x10;
  }

  lemma XorStep2()
    ensures Xor(0xd9, 0x6f) == 0xb6
  {
    assert Xor(0x6, 0x3) == 0x5;
    assert Xor(0xd, 0x6) == 0xb && Xor(0x1b, 0xd) == 0x16;
    assert Xor(0x36, 0x1b) == 0x2d && Xor(0x6c, 0x37) == 0x5b;
  }

  lemma XorStep3()
    ensures Xor(0x42, 0x6f) == 0x2d
  {
    assert Xor(0x4, 0x6) == 0x2 && Xor(0x10, 0x1b) == 0xb;
  }

  lemma XorStep4()
    ensures Xor(0x77, 0x62) == 0x15
  {
    assert Xor(0x7, 0x6) == 0x1 && Xor(0x1d, 0x18) == 0x5;
  }

  lemma XorStep5()
    ensures Xor(0xaf, 0x61) == 0xce
  {
    assert Xor(0xa, 0x6) == 0xc && Xor(0x15, 0xc) == 0x19;
    assert Xor(0x2b, 0x18) == 0x33 && Xor(0x57, 0x30) == 0x67;
  }

  lemma XorStep6()
    ensures Xor(0xa, 0x72) == 0x78
  {
    assert Xor(0x0, 0x7) == 0x7 && Xor(0x2, 0x1c) == 0x1e;
  }

  lemma RoundsA()
    ensures Rounds(OFFSET, [0x61]) == 0xaf63dc4c8601ec8c
  {
    hide Xor, Round;
    XorStepA();
    RoundIs(0xcbf29ce4842223, 0x25, 0x61, 0x44, 0xcbf29ce5de, 0xaf63dc4c8601ec8c);
    RoundsNext(OFFSET, [0x61], 0xaf63dc4c8601ec8c);
  }

  lemma RoundsFoobar()
    ensures Rounds(OFFSET, [0x66, 0x6f, 0x6f, 0x62, 0x61, 0x72]) == 0x85944171f73967e8
  {
    hide Xor, Round;
    XorStep1();
    RoundIs(0xcbf29ce4842223, 0x25, 0x66, 0x43, 0xcbf29ce5de, 0xaf63db4c8601ead9);
    RoundsNext(0xcbf29ce484222325, [0x66, 0x6f, 0x6f, 0x62, 0x61, 0x72], 0xaf63db4c8601ead9);
    assert [0x66, 0x6f, 0x6f, 0x62, 0x61, 0x72][1..] == [0x6f, 0x6f, 0x62, 0x61, 0x72];
    XorStep2();
    RoundIs(0xaf63db4c8601ea, 0xd9, 0x6f, 0xb6, 0xaf63db4db0, 0x8985907b541d342);
    RoundsNext(0xaf63db4c8601ead9, [0x6f, 0x6f, 0x62, 0x61, 0x72], 0x8985907b541d342);
    assert [0x6f, 0x6f, 0x62, 0x61, 0x72][1..] == [0x6f, 0x62, 0x61, 0x72];
    XorStep3();
    RoundIs(0x8985907b541d3, 0x42, 0x6f, 0x2d, 0x8985907c3, 0xdcb27518fed9d577);
    RoundsNext(0x8985907b541d342, [0x6f, 0x62, 0x61, 0x72], 0xdcb27518fed9d577);
    assert [0x6f, 0x62, 0x61, 0x72][1..] == [0x62, 0x61, 0x72];
    XorStep4();
    RoundIs(0xdcb27518fed9d5, 0x77, 0x62, 0x15, 0xdcb2751a75, 0xdd120e790c2512af);
    RoundsNext(0xdcb27518fed9d577, [0x62, 0x61, 0x72], 0xdd120e790c2512af);
    assert [0x62, 0x61, 0x72][1..] == [0x61, 0x72];
    XorStep5();
    RoundIs(0xdd120e790c2512, 0xaf, 0x61, 0xce, 0xdd120e7a83, 0xcac165afa2fef40a);
    RoundsNext(0xdd120e790c2512af, [0x61, 0x72], 0xcac165afa2fef40a);
    assert [0x61, 0x72][1..] == [0x72];
    XorStep6();
    RoundIs(0xcac165afa2fef4, 0xa, 0x72, 0x78, 0xcac165b0fb, 0x85944171f73967e8);
    RoundsNext(0xcac165afa2fef40a, [0x72], 0x85944171f73967e8);
  }

  lemma HexNext(n: nat, width: nat, d: nat)
    requires d < 16
    ensures HexDigits(16 * n + d, width + 1) == HexDigits(n, width) + [HexDigit(d)]
  {
    HexUnfold(16 * n + d, width + 1, n, d);
  }

  lemma HexUnfold(m: nat, width: nat, n: nat, d: nat)
    requires width > 0 && d < 16 && m == 16 * n + d
    ensures HexDigits(m, width) == HexDigits(n, width - 1) + [HexDigit(d)]
  {
    assert m / 16 == n && m % 16 == d;
  }

  /** Four more digits. */
  lemma HexFour(n: nat, width: nat, a: nat, b: nat, c: nat, d: nat)
    requires a < 16 && b < 16 && c < 16 && d < 16
    ensures HexDigits(65536 * n + 4096 * a + 256 * b + 16 * c + d, width + 4) ==
            HexDigits(n, width) + [HexDigit(a), HexDigit(b), HexDigit(c), HexDigit(d)]
  {
    hide HexDigits;
    HexNext(n, width, a);
    HexNext(16 * n + a, width + 1, b);
    HexNext(256 * n + 16 * a + b, width + 2, c);
    HexNext(4096 * n + 256 * a + 16 * b + c, width + 3, d);
  }

  lemma NoDigits()
    ensures HexDigits(0, 0) == ""
  {
  }

  lemma HexEmpty()
    ensures HexDigits(0xcbf29ce484222325, 16) == "cbf29ce484222325"
  {
    hide HexDigits;
    NoDigits();
    HexFour(0x0, 0, 0xc, 0xb, 0xf, 0x2);
    HexFour(0xcbf2, 4, 0x9, 0xc, 0xe, 0x4);
    HexFour(0xcbf29ce4, 8, 0x8, 0x4, 0x2, 0x2);
    HexFour(0xcbf29ce48422, 12, 0x2, 0x3, 0x2, 0x5);
  }

  lemma HexA()
    ensures HexDigits(0xaf63dc4c8601ec8c, 16) == "af63dc4c8601ec8c"
  {
    hide HexDigits;
    NoDigits();
    HexFour(0x0, 0, 0xa, 0xf, 0x6, 0x3);
    HexFour(0xaf63, 4, 0xd, 0xc, 0x4, 0xc);
    HexFour(0xaf63dc4c, 8, 0x8, 0x6, 0x0, 0x1);
    HexFour(0xaf63dc4c8601, 12, 0xe, 0xc, 0x8, 0xc);
  }

  lemma HexFoobar()
    ensures HexDigits(0x85944171f73967e8, 16) == "85944171f73967e8"
  {
    hide HexDigits;
    NoDigits();
    HexFour(0x0, 0, 0x8, 0x5, 0x9, 0x4);
    HexFour(0x8594, 4, 0x4, 0x1, 0x7, 0x1);
    HexFour(0x85944171, 8, 0xf, 0x7, 0x3, 0x9);
    HexFour(0x85944171f739, 12, 0x6, 0x7, 0xe, 0x8);
  }

  /** The published hashes of the empty text, of `a` and of `foobar`. */
  lemma PublishedHashes()
    ensures HashHex([]) == "cbf29ce484222325"
    ensures HashHex([0x61]) == "af63dc4c8601ec8c"
    ensures HashHex([0x66, 0x6f, 0x6f, 0x62, 0x61, 0x72]) == "85944171f73967e8"
  {
    hide HexDigits;
    RoundsA();
    RoundsFoobar();
    HexEmpty();
    HexA();
    HexFoobar();
  }
}
