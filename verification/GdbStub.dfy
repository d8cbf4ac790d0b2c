/**
 The packet layer of the remote debugging stub, gdbstub.c: framing with a
 checksum, the receiving state machine, retransmission, and the hexadecimal
 conversions that read and write device memory in one access.
 */
module GdbStub {
  import opened Words

  const DOLLAR: byte := 0x24
  const HASH: byte := 0x23
  const PLUS: byte := 0x2b
  const MINUS: byte := 0x2d

  // SIZEOF_PAYLOAD
  const MAX := 512

  // ---- Hexadecimal --------------------------------------------------------

  function Lower(c: byte): byte {
    if 0x41 <= c <= 0x5a then c + 0x20 else c
  }

  // gdbstub_from_hex_digit()
  function FromHex(c: byte): (n: int)
    ensures 0 <= n < 16
  {
    (if 0x30 <= c <= 0x39 then c - 0x30 else Lower(c) - 0x61 + 10) % 16
  }

  // gdbstub_to_hex_digit()
  function ToHex(n: int): (c: byte)
    ensures FromHex(c) == n % 16 && c != DOLLAR && c != HASH
  {
    if n % 16 < 10 then 0x30 + n % 16 else 0x61 + (n % 16 - 10)
  }

  // Two digits for each byte
  function Hex(s: seq<byte>): (h: seq<byte>)
    ensures |h| == 2 * |s|
  {
    if s == [] then [] else Hex(s[..|s| - 1]) + [ToHex(s[|s| - 1] / 16), ToHex(s[|s| - 1])]
  }

  function Unhex(h: seq<byte>): (s: seq<byte>)
    ensures |s| == |h| / 2
  {
    if |h| < 2 then []
    else Unhex(h[..|h| - 2]) + [FromHex(h[|h| - 2]) * 16 + FromHex(h[|h| - 1])]
  }

  lemma {:induction false} UnhexHex(s: seq<byte>)
    ensures Unhex(Hex(s)) == s
  {
    hide ToHex, FromHex, Hex, Unhex;
    if s == [] {
      HexNone();
    } else {
      var front, last := s[..|s| - 1], s[|s| - 1];
      assert s == front + [last];
      UnhexHex(front);
      HexStep(front, last);
      UnhexStep(Hex(front), ToHex(last / 16), ToHex(last));
      UnhexDigits(last);
    }
  }

  lemma UnhexDigits(a: byte)
    ensures FromHex(ToHex(a / 16)) * 16 + FromHex(ToHex(a)) == a
  {
    hide ToHex, FromHex;
  }

  lemma UnhexStep(h: seq<byte>, a: byte, b: byte)
    ensures Unhex(h + [a, b]) == Unhex(h) + [FromHex(a) * 16 + FromHex(b)]
  {
    hide FromHex;
    assert (h + [a, b])[..|h|] == h;
  }

  predicate LowerDigit(c: byte) {
    0x30 <= c <= 0x39 || 0x61 <= c <= 0x66
  }

  ghost predicate LowerDigits(h: seq<byte>) {
    forall i :: 0 <= i < |h| ==> LowerDigit(h[i])
  }

  lemma DigitsLower(n: int)
    ensures LowerDigit(ToHex(n))
  {
  }

  lemma DigitsBack(a: byte, b: byte)
    requires LowerDigit(a) && LowerDigit(b)
    ensures var n := FromHex(a) * 16 + FromHex(b); ToHex(n / 16) == a && ToHex(n) == b
  {
    var x, y := FromHex(a), FromHex(b);
    DivModUnique(x * 16 + y, 16, x, y);
    assert ToHex(x) == a && ToHex(y) == b;
    SameDigit(x * 16 + y, y);
  }

  lemma {:induction false} HexLower(s: seq<byte>)
    ensures LowerDigits(Hex(s))
  {
    hide ToHex, LowerDigit, Hex;
    if s == [] {
      HexNone();
    } else {
      var front, last := s[..|s| - 1], s[|s| - 1];
      assert s == front + [last];
      HexLower(front);
      HexStep(front, last);
      DigitsLower(last / 16);
      DigitsLower(last);
    }
  }

  lemma {:induction false} HexUnhex(h: seq<byte>)
    requires |h| % 2 == 0 && LowerDigits(h)
    ensures Hex(Unhex(h)) == h
  {
    hide ToHex, FromHex, Hex, Unhex, LowerDigit;
    if h == [] {
      HexNone();
    } else {
      var front, a, b := h[..|h| - 2], h[|h| - 2], h[|h| - 1];
      assert h == front + [a, b];
      HexUnhex(front);
      UnhexStep(front, a, b);
      HexStep(Unhex(front), FromHex(a) * 16 + FromHex(b));
      DigitsBack(a, b);
    }
  }

  // The digits of a string are exactly the lower-case ones of even number.
  lemma HexUnhexExactly(h: seq<byte>)
    ensures Hex(Unhex(h)) == h <==> |h| % 2 == 0 && LowerDigits(h)
  {
    if |h| % 2 == 0 && LowerDigits(h) {
      HexUnhex(h);
    }
    HexLower(Unhex(h));
  }

  // gdbstub_to_hex_buf(): a little-endian word in one access, or byte by byte
  method ToHexBuf(src: seq<byte>, aligned: bool) returns (dst: seq<byte>)
    ensures dst == Hex(src)
  {
    if |src| == 2 && aligned {
      var i := Le16(src);
      dst := [ToHex(i / 0x10), ToHex(i), ToHex(i / 0x1000), ToHex(i / 0x100)];
      Word16(src);
    } else if |src| == 4 && aligned {
      var i := Le32(src);
      dst := [ToHex(i / 0x10), ToHex(i), ToHex(i / 0x1000), ToHex(i / 0x100),
              ToHex(i / 0x10_0000), ToHex(i / 0x1_0000), ToHex(i / 0x1000_0000), ToHex(i / 0x100_0000)];
      Word32(src);
    } else {
      dst := [];
      var n := 0;
      while n < |src|
        invariant 0 <= n <= |src| && dst == Hex(src[..n])
      {
        dst := dst + [ToHex(src[n] / 16), ToHex(src[n])];
        assert src[..n + 1][..n] == src[..n];
        n := n + 1;
      }
      assert src[..n] == src;
    }
  }

  function Le16(s: seq<byte>): int
    requires |s| == 2
  {
    s[0] + 0x100 * s[1] as int
  }

  function Le32(s: seq<byte>): int
    requires |s| == 4
  {
    s[0] + 0x100 * s[1] as int + 0x1_0000 * s[2] as int + 0x100_0000 * s[3] as int
  }

  // A digit depends only on the low four bits.
  lemma SameDigit(n: int, m: int)
    requires n % 16 == m % 16
    ensures ToHex(n) == ToHex(m)
  {
  }

  lemma {:induction false} HexStep(s: seq<byte>, a: byte)
    ensures Hex(s + [a]) == Hex(s) + [ToHex(a / 16), ToHex(a)]
  {
    hide ToHex;
    assert (s + [a])[..|s|] == s;
  }

  lemma Nibbles(low: int, a: int, high: int)
    requires 0 <= low < 0x100 && 0 <= a < 0x100
    ensures (a + high * 0x100) / 0x10 % 16 == a / 16 % 16 && (a + high * 0x100) % 16 == a % 16
    ensures (low + (a + high * 0x100) * 0x100) / 0x100 == a + high * 0x100
  {
    assert a + high * 0x100 == 16 * (a / 16 + high * 16) + a % 16;
    assert (a / 16 + high * 16) % 16 == a / 16 % 16;
  }

  lemma Word16(s: seq<byte>)
    requires |s| == 2
    ensures var i := Le16(s);
            Hex(s) == [ToHex(i / 0x10), ToHex(i), ToHex(i / 0x1000), ToHex(i / 0x100)]
  {
    hide ToHex, Hex;
    var i := Le16(s);
    HexTwo(s);
    Nibbles(0, s[0], s[1]);
    Nibbles(s[0], s[1], 0);
    assert i / 0x100 == s[1] && i / 0x1000 == s[1] / 16;
    SameDigit(i / 0x10, s[0] / 16);
    SameDigit(i, s[0]);
  }

  lemma HexTwo(s: seq<byte>)
    requires |s| == 2
    ensures Hex(s) == [ToHex(s[0] / 16), ToHex(s[0]), ToHex(s[1] / 16), ToHex(s[1])]
  {
    hide ToHex, Hex, Unhex;
    HexNone();
    HexStep([], s[0]);
    HexStep([s[0]], s[1]);
    assert [] + [s[0]] == [s[0]] && [s[0]] + [s[1]] == s;
  }

  lemma HexNone()
    ensures Hex([]) == [] && Unhex([]) == []
  {
  }

  lemma Word32(s: seq<byte>)
    requires |s| == 4
    ensures var i := Le32(s);
            Hex(s) == [ToHex(i / 0x10), ToHex(i), ToHex(i / 0x1000), ToHex(i / 0x100),
                       ToHex(i / 0x10_0000), ToHex(i / 0x1_0000), ToHex(i / 0x1000_0000), ToHex(i / 0x100_0000)]
  {
    hide ToHex, Hex, Le16;
    Word16(s[..2]);
    Word16(s[2..]);
    HexConcat(s[..2], s[2..]);
    assert s == s[..2] + s[2..];
    Halves(s);
  }

  // The digits of the two halves of a word
  lemma Halves(s: seq<byte>)
    requires |s| == 4
    ensures var i, lo, hi := Le32(s), Le16(s[..2]), Le16(s[2..]);
            && ToHex(lo / 0x10) == ToHex(i / 0x10) && ToHex(lo) == ToHex(i)
            && ToHex(lo / 0x1000) == ToHex(i / 0x1000) && ToHex(lo / 0x100) == ToHex(i / 0x100)
            && hi / 0x10 == i / 0x10_0000 && hi == i / 0x1_0000
            && hi / 0x1000 == i / 0x1000_0000 && hi / 0x100 == i / 0x100_0000
  {
    hide ToHex;
    var i, lo, hi := Le32(s), Le16(s[..2]), Le16(s[2..]);
    assert i == lo + 0x1_0000 * hi && 0 <= lo < 0x1_0000;
    HighHalf(lo, hi);
    LowHalf(lo, hi);
    SameDigit(lo / 0x10, i / 0x10);
    SameDigit(lo, i);
    SameDigit(lo / 0x1000, i / 0x1000);
    SameDigit(lo / 0x100, i / 0x100);
  }

  lemma HighHalf(lo: int, hi: int)
    requires 0 <= lo < 0x1_0000 && hi >= 0
    ensures var i := lo + 0x1_0000 * hi;
            && hi / 0x10 == i / 0x10_0000 && hi == i / 0x1_0000
            && hi / 0x1000 == i / 0x1000_0000 && hi / 0x100 == i / 0x100_0000
  {
  }

  lemma LowHalf(lo: int, hi: int)
    requires 0 <= lo < 0x1_0000 && hi >= 0
    ensures var i := lo + 0x1_0000 * hi;
            && lo / 0x10 % 16 == i / 0x10 % 16 && lo % 16 == i % 16
            && lo / 0x1000 % 16 == i / 0x1000 % 16 && lo / 0x100 % 16 == i / 0x100 % 16
  {
    Shifted(lo, 0x1000 * hi, 0x10);
    Shifted(lo, 0x100 * hi, 0x100);
    Shifted(lo, 0x10 * hi, 0x1000);
    ModShift(lo, 0x1000 * hi, 16);
    ModShift(lo / 0x10, 0x100 * hi, 16);
    ModShift(lo / 0x100, 0x10 * hi, 16);
    ModShift(lo / 0x1000, hi, 16);
  }

  lemma Shifted(x: int, q: int, m: int)
    requires m > 0
    ensures (x + q * m) / m == x / m + q
  {
    DivModUnique(x + q * m, m, x / m + q, x % m);
  }

  lemma {:induction false} HexConcat(a: seq<byte>, b: seq<byte>)
    ensures Hex(a + b) == Hex(a) + Hex(b)
  {
    hide ToHex, Hex, Unhex;
    if b == [] {
      HexNone();
      assert a + b == a && Hex(a) + [] == Hex(a);
    } else {
      var front, last := b[..|b| - 1], b[|b| - 1];
      assert a + b == (a + front) + [last] && b == front + [last];
      HexConcat(a, front);
      HexStep(a + front, last);
      HexStep(front, last);
      Associative(Hex(a), Hex(front), [ToHex(last / 16), ToHex(last)]);
    }
  }

  // The value of a nibble shifted to a bit position
  function Nibble(c: byte, k: nat): nat {
    Shl(FromHex(c), k)
  }

  // OR with a nibble below all bits that are set is addition.
  lemma OrNibble(acc: nat, c: byte, k: nat)
    requires acc % Pow2(k + 4) == 0
    ensures Or(acc, Nibble(c, k)) == acc + FromHex(c) * Pow2(k)
    ensures (acc + FromHex(c) * Pow2(k)) % Pow2(k) == 0
  {
    hide FromHex, Or;
    var p := Pow2(k);
    Pow2Sum(k, 4);
    assert Pow2(4) == 16 by { assert Pow2(1) == 2 && Pow2(2) == 4 && Pow2(3) == 8; }
    MulMono(FromHex(c), 15, p);
    OrDisjoint(acc, FromHex(c) * p, k + 4);
    var q := acc / (p * 16);
    assert acc == (q * 16) * p by { MulAssoc(q, 16, p); }
    assert acc + FromHex(c) * p == (q * 16 + FromHex(c)) * p;
    MultipleMod(q * 16 + FromHex(c), p);
  }

  lemma TopNibble(c: byte, k: nat)
    ensures Nibble(c, k) == FromHex(c) * Pow2(k) && Nibble(c, k) % Pow2(k) == 0
  {
    hide FromHex;
    MultipleMod(FromHex(c), Pow2(k));
  }

  lemma PowersOf16()
    ensures Pow2(0) == 1 && Pow2(4) == 0x10 && Pow2(8) == 0x100 && Pow2(12) == 0x1000
    ensures Pow2(16) == 0x1_0000 && Pow2(20) == 0x10_0000 && Pow2(24) == 0x100_0000 && Pow2(28) == 0x1000_0000
  {
    assert Pow2(4) == 0x10 by { assert Pow2(1) == 2 && Pow2(2) == 4 && Pow2(3) == 8; }
    Pow2Sum(4, 4);
    Pow2Sum(8, 4);
    Pow2Sum(8, 8);
    Pow2Sum(16, 4);
    Pow2Sum(16, 8);
    Pow2Sum(16, 12);
  }

  function Packed16(h: seq<byte>): nat
    requires |h| >= 4
  {
    Or(Or(Or(Nibble(h[2], 12), Nibble(h[3], 8)), Nibble(h[0], 4)), Nibble(h[1], 0))
  }

  lemma Packed16Is(h: seq<byte>)
    requires |h| >= 4
    ensures Packed16(h) == FromHex(h[2]) * 0x1000 + FromHex(h[3]) * 0x100 + FromHex(h[0]) * 0x10 + FromHex(h[1])
  {
    hide FromHex, Or, Nibble, Pow2;
    PowersOf16();
    TopNibble(h[2], 12);
    OrNibble(Nibble(h[2], 12), h[3], 8);
    OrNibble(Or(Nibble(h[2], 12), Nibble(h[3], 8)), h[0], 4);
    OrNibble(Or(Or(Nibble(h[2], 12), Nibble(h[3], 8)), Nibble(h[0], 4)), h[1], 0);
  }

  function Packed32(h: seq<byte>): nat
    requires |h| >= 8
  {
    var top := Or(Or(Or(Nibble(h[6], 28), Nibble(h[7], 24)), Nibble(h[4], 20)), Nibble(h[5], 16));
    Or(Or(Or(Or(top, Nibble(h[2], 12)), Nibble(h[3], 8)), Nibble(h[0], 4)), Nibble(h[1], 0))
  }

  lemma Packed32Is(h: seq<byte>)
    requires |h| >= 8
    ensures Packed32(h) ==
            FromHex(h[6]) * 0x1000_0000 + FromHex(h[7]) * 0x100_0000 + FromHex(h[4]) * 0x10_0000 + FromHex(h[5]) * 0x1_0000
            + FromHex(h[2]) * 0x1000 + FromHex(h[3]) * 0x100 + FromHex(h[0]) * 0x10 + FromHex(h[1])
  {
    hide FromHex, Or, Nibble, Pow2;
    PowersOf16();
    TopNibble(h[6], 28);
    var a := Or(Nibble(h[6], 28), Nibble(h[7], 24));
    OrNibble(Nibble(h[6], 28), h[7], 24);
    var b := Or(a, Nibble(h[4], 20));
    OrNibble(a, h[4], 20);
    var c := Or(b, Nibble(h[5], 16));
    OrNibble(b, h[5], 16);
    var d := Or(c, Nibble(h[2], 12));
    OrNibble(c, h[2], 12);
    var e := Or(d, Nibble(h[3], 8));
    OrNibble(d, h[3], 8);
    var f := Or(e, Nibble(h[0], 4));
    OrNibble(e, h[0], 4);
    OrNibble(f, h[1], 0);
  }

  // The bytes of a little-endian word
  function Store16(i: nat): seq<byte> {
    [i % 0x100, i / 0x100 % 0x100]
  }

  function Store32(i: nat): seq<byte> {
    [i % 0x100, i / 0x100 % 0x100, i / 0x1_0000 % 0x100, i / 0x100_0000 % 0x100]
  }

  // gdbstub_from_hex_buf(): a little-endian word in one access, or byte by byte
  method FromHexBuf(src: seq<byte>, n: nat, aligned: bool) returns (dst: seq<byte>)
    requires 2 * n <= |src|
    ensures dst == Unhex(src[..2 * n])
  {
    hide Packed16, Packed32, Or, FromHex, Unhex;
    if n == 2 && aligned {
      dst := Store16(Packed16(src));
      Unhexed16(src);
    } else if n == 4 && aligned {
      dst := Store32(Packed32(src));
      Unhexed32(src);
    } else {
      dst := [];
      HexNone();
      var k := 0;
      while k < n
        invariant 0 <= k <= n && dst == Unhex(src[..2 * k])
      {
        dst := dst + [FromHex(src[2 * k]) * 16 + FromHex(src[2 * k + 1])];
        UnhexStep(src[..2 * k], src[2 * k], src[2 * k + 1]);
        assert src[..2 * (k + 1)] == src[..2 * k] + [src[2 * k], src[2 * k + 1]];
        k := k + 1;
      }
    }
  }

  function PairAt(h: seq<byte>, k: int): byte
    requires 0 <= k && 2 * k + 1 < |h|
  {
    FromHex(h[2 * k]) * 16 + FromHex(h[2 * k + 1])
  }

  lemma {:induction false} UnhexAt(h: seq<byte>, n: nat)
    requires 2 * n <= |h|
    ensures Unhex(h[..2 * n]) == seq(n, k requires 0 <= k < n => PairAt(h, k))
  {
    hide FromHex, Unhex;
    if n == 0 {
      HexNone();
    } else {
      UnhexAt(h, n - 1);
      UnhexStep(h[..2 * (n - 1)], h[2 * n - 2], h[2 * n - 1]);
      assert h[..2 * n] == h[..2 * (n - 1)] + [h[2 * n - 2], h[2 * n - 1]];
    }
  }

  lemma Unhexed16(h: seq<byte>)
    requires |h| >= 4
    ensures Store16(Packed16(h)) == Unhex(h[..4])
  {
    hide FromHex, Unhex, Packed16;
    Packed16Is(h);
    UnhexAt(h, 2);
    assert Packed16(h) == PairAt(h, 0) + 0x100 * PairAt(h, 1) as int;
  }

  lemma Unhexed32(h: seq<byte>)
    requires |h| >= 8
    ensures Store32(Packed32(h)) == Unhex(h[..8])
  {
    hide FromHex, Unhex, Packed32, PairAt;
    Packed32Pairs(h);
    UnhexAt(h, 4);
    Digits256(PairAt(h, 0), PairAt(h, 1), PairAt(h, 2), PairAt(h, 3));
  }

  lemma Packed32Pairs(h: seq<byte>)
    requires |h| >= 8
    ensures Packed32(h) == PairAt(h, 0) + 0x100 * PairAt(h, 1) as int + 0x1_0000 * PairAt(h, 2) as int
                           + 0x100_0000 * PairAt(h, 3) as int
  {
    hide FromHex, Packed32;
    Packed32Is(h);
  }

  lemma Digits256(a: byte, b: byte, c: byte, d: byte)
    ensures Store32(a + 0x100 * b as int + 0x1_0000 * c as int + 0x100_0000 * d as int) == [a, b, c, d]
  {
    var i := a + 0x100 * b as int + 0x1_0000 * c as int + 0x100_0000 * d as int;
    assert i / 0x100 == b + 0x100 * c as int + 0x1_0000 * d as int;
    assert i / 0x1_0000 == c + 0x100 * d as int;
    assert i / 0x100_0000 == d;
  }

  // ---- Packets ------------------------------------------------------------

  // gdbstub_cksum()
  function Sum(s: seq<byte>): (n: byte) {
    if s == [] then 0 else (Sum(s[..|s| - 1]) + s[|s| - 1]) % 256
  }

  function Frame(payload: seq<byte>): seq<byte> {
    [DOLLAR] + payload + [HASH, ToHex(Sum(payload) / 16), ToHex(Sum(payload))]
  }

  datatype State = New | Data | Cksum1 | Cksum2 | WaitAck

  /** The parser: its state, the payload buffer and the first checksum digit */
  datatype Parser = Parser(state: State, payload: seq<byte>, cksum1: byte)

  /** What a character causes: bytes sent, or a payload passed to the commands */
  datatype Out = Send(bytes: seq<byte>) | Deliver(payload: seq<byte>)

  // gdbstub_parse(); `reply` is what the command answers, if it does.
  function Step(p: Parser, ch: byte, reply: Option<seq<byte>>): (Parser, seq<Out>) {
    match p.state
    case New => (if ch == DOLLAR then Parser(Data, [], p.cksum1) else p, [])
    case Data =>
      (if ch == HASH then p.(state := Cksum1)
       else if ch == DOLLAR then p.(payload := [])
       else if |p.payload| < MAX then p.(payload := p.payload + [ch])
       else p, [])
    case Cksum1 => (p.(state := Cksum2, cksum1 := FromHex(ch) * 16), [])
    case Cksum2 =>
      if (p.cksum1 + FromHex(ch)) % 256 != Sum(p.payload) then (p.(state := New), [Send([MINUS])])
      else if p.payload == [] then (p.(state := New), [Send([PLUS])])
      else Answer(p, reply)
    case WaitAck =>
      if ch == PLUS then (p.(state := New), []) else (p, [Send(Frame(p.payload))])
  }

  function Answer(p: Parser, reply: Option<seq<byte>>): (Parser, seq<Out>) {
    match reply
    case None => (p.(state := New), [Send([PLUS]), Deliver(p.payload)])
    case Some(r) => (p.(state := WaitAck, payload := r), [Send([PLUS]), Deliver(p.payload), Send(Frame(r))])
  }

  class Stub {
    const buf: array<byte>
    var state: State
    var len: int
    var cksum1: byte
    ghost var log: seq<Out>

    ghost predicate Valid()
      reads this
    {
      buf.Length == MAX + 4 && 0 <= len <= MAX
    }

    ghost function Abs(): Parser
      requires Valid()
      reads this, buf
    {
      Parser(state, buf[1..1 + len], cksum1)
    }

    constructor ()
      ensures Valid() && fresh(buf) && state == New && log == []
    {
      buf := new byte[MAX + 4](_ => 0);
      state, len, cksum1, log := New, 0, 0, [];
    }

    method Checksum() returns (sum: byte)
      requires Valid()
      ensures sum == Sum(buf[1..1 + len])
    {
      sum := 0;
      for i := 0 to len
        invariant sum == Sum(buf[1..1 + i])
      {
        sum := (sum + buf[1 + i]) % 256;
        assert buf[1..1 + i + 1][..i] == buf[1..1 + i];
      }
    }

    // gdbstub_tx_packet(): no byte of the frame falls outside the buffer, and
    // sending again sends the same bytes.
    method TxPacket()
      requires Valid()
      modifies this, buf
      ensures Valid() && Abs() == old(Abs()).(state := WaitAck)
      ensures log == old(log) + [Send(Frame(old(Abs().payload)))]
    {
      hide Sum, ToHex;
      var sum := Checksum();
      ghost var payload := buf[1..1 + len];
      buf[0] := DOLLAR;
      buf[len + 1] := HASH;
      buf[len + 2] := ToHex(sum / 16);
      buf[len + 3] := ToHex(sum);
      assert buf[1..1 + len] == payload;
      assert buf[..len + 4] == Frame(payload);
      log := log + [Send(buf[..len + 4])];
      state := WaitAck;
    }

    // A command fills in the payload of its reply.
    method Reply(r: seq<byte>)
      requires Valid() && |r| <= MAX
      modifies this`len, buf
      ensures Valid() && buf[1..1 + len] == r
    {
      forall i | 0 <= i < |r| {
        buf[1 + i] := r[i];
      }
      len := |r|;
    }

    // gdbstub_state_data()
    method StateData(ch: byte)
      requires Valid() && state == Data
      modifies this, buf
      ensures Valid() && Abs() == Step(old(Abs()), ch, None).0 && log == old(log)
    {
      if ch == HASH {
        state := Cksum1;
      } else if ch == DOLLAR {
        len := 0;
      } else if len < MAX {
        buf[1 + len] := ch;
        len := len + 1;
      }
    }

    // gdbstub_state_cksum2()
    method StateCksum2(ch: byte, reply: Option<seq<byte>>)
      requires Valid() && state == Cksum2 && (reply.Some? ==> |reply.value| <= MAX)
      modifies this, buf
      ensures Valid() && Abs() == Step(old(Abs()), ch, reply).0
      ensures log == old(log) + Step(old(Abs()), ch, reply).1
    {
      hide Sum, Frame, FromHex;
      state := New;
      var sum := Checksum();
      if (cksum1 + FromHex(ch)) % 256 == sum {
        log := log + [Send([PLUS])];
        if len > 0 {
          log := log + [Deliver(buf[1..1 + len])];
          if reply.Some? {
            Reply(reply.value);
            TxPacket();
          }
        }
      } else {
        log := log + [Send([MINUS])];
      }
    }

    // gdbstub_parse()
    method Parse(ch: byte, reply: Option<seq<byte>>)
      requires Valid() && (reply.Some? ==> |reply.value| <= MAX)
      modifies this, buf
      ensures Valid() && Abs() == Step(old(Abs()), ch, reply).0
      ensures log == old(log) + Step(old(Abs()), ch, reply).1
    {
      hide Sum, Frame, FromHex, Answer;
      match state {
        case New =>
          if ch == DOLLAR {
            len := 0;
            state := Data;
          }
        case Data =>
          StateData(ch);
        case Cksum1 =>
          cksum1 := FromHex(ch) * 16;
          state := Cksum2;
        case Cksum2 =>
          StateCksum2(ch, reply);
        case WaitAck =>
          if ch == PLUS {
            state := New;
          } else {
            TxPacket();
          }
      }
    }
  }

  // ---- Whole packets ------------------------------------------------------

  function Feed(p: Parser, s: seq<byte>, reply: Option<seq<byte>>): (Parser, seq<Out>)
    decreases |s|
  {
    if s == [] then (p, [])
    else
      var (q, out) := Step(p, s[0], reply);
      var (r, rest) := Feed(q, s[1..], reply);
      (r, out + rest)
  }

  lemma {:induction false} FeedConcat(p: Parser, a: seq<byte>, b: seq<byte>, reply: Option<seq<byte>>)
    ensures var (q, out) := Feed(p, a, reply);
            Feed(p, a + b, reply) == (Feed(q, b, reply).0, out + Feed(q, b, reply).1)
    decreases |a|
  {
    hide Step;
    if a == [] {
      assert a + b == b;
      assert [] + Feed(p, b, reply).1 == Feed(p, b, reply).1;
    } else {
      var (q, out) := Step(p, a[0], reply);
      FeedConcat(q, a[1..], b, reply);
      assert (a + b)[1..] == a[1..] + b;
      var (r, rest) := Feed(q, a[1..], reply);
      assert out + (rest + Feed(r, b, reply).1) == (out + rest) + Feed(r, b, reply).1;
    }
  }

  predicate Plain(s: seq<byte>) {
    forall i :: 0 <= i < |s| ==> s[i] != DOLLAR && s[i] != HASH
  }

  // As much of the data as fits
  function Kept(s: seq<byte>): seq<byte> {
    if |s| <= MAX then s else s[..MAX]
  }

  lemma {:induction false} FeedData(p: Parser, data: seq<byte>, reply: Option<seq<byte>>)
    requires p.state == Data && Plain(data) && |p.payload| <= MAX
    ensures Feed(p, data, reply) == (p.(payload := Kept(p.payload + data)), [])
    decreases |data|
  {
    if data == [] {
      assert p.payload + data == p.payload;
    } else {
      var q := Step(p, data[0], reply).0;
      FeedData(q, data[1..], reply);
      KeptStep(p.payload, data);
      assert Feed(p, data, reply).1 == [] + [];
    }
  }

  lemma KeptStep(a: seq<byte>, data: seq<byte>)
    requires |a| <= MAX && data != []
    ensures Kept((if |a| < MAX then a + [data[0]] else a) + data[1..]) == Kept(a + data)
  {
    if |a| < MAX {
      assert a + [data[0]] + data[1..] == a + data;
    }
  }

  // What the end of a packet leads to: the whole output, and the state after it
  ghost predicate Outcome(payload: seq<byte>, right: bool, reply: Option<seq<byte>>, q: Parser, out: seq<Out>) {
    if !right then q.state == New && out == [Send([0x2d])]
    else if payload == [] then q.state == New && out == [Send([0x2b])]
    else
      match reply
      case None => q.state == New && out == [Send([0x2b]), Deliver(payload)]
      case Some(r) =>
        q.state == WaitAck && q.payload == r && out == [Send([0x2b]), Deliver(payload), Send(Frame(r))]
  }

  // A packet is accepted, and its payload passed on, exactly if the checksum is
  // that of the part of the payload which fits; only a packet that is passed on
  // is answered.
  lemma ReceivePacket(p: Parser, data: seq<byte>, h1: byte, h2: byte, reply: Option<seq<byte>>)
    requires (p.state == New || p.state == Data) && Plain(data)
    ensures var (q, out) := Feed(p, [DOLLAR] + data + [HASH, h1, h2], reply);
            Outcome(Kept(data), FromHex(h1) * 16 + FromHex(h2) == Sum(Kept(data)), reply, q, out)
  {
    hide FromHex, Sum, Frame, Kept, Outcome;
    var q := Parser(Data, [], p.cksum1);
    var end := [HASH, h1, h2];
    Opened(p, reply);
    FeedConcat(p, [DOLLAR], data + end, reply);
    FeedData(q, data, reply);
    assert [] + data == data;
    FeedConcat(q, data, end, reply);
    var r := q.(payload := Kept(data));
    Trailer(r, h1, h2, reply);
    assert [DOLLAR] + data + end == [DOLLAR] + (data + end);
    var out := Feed(r, end, reply).1;
    assert [] + out == out;
  }

  lemma Opened(p: Parser, reply: Option<seq<byte>>)
    requires p.state == New || p.state == Data
    ensures Feed(p, [DOLLAR], reply) == (Parser(Data, [], p.cksum1), [])
  {
    FeedOne(p, DOLLAR, reply);
  }

  lemma FeedOne(p: Parser, ch: byte, reply: Option<seq<byte>>)
    ensures Feed(p, [ch], reply) == Step(p, ch, reply)
  {
    hide Step;
    var (q, out) := Step(p, ch, reply);
    assert Feed(q, [ch][1..], reply) == (q, []);
    assert out + [] == out;
  }

  lemma Trailer(p: Parser, h1: byte, h2: byte, reply: Option<seq<byte>>)
    requires p.state == Data
    ensures var (q, out) := Feed(p, [HASH, h1, h2], reply);
            Outcome(p.payload, FromHex(h1) * 16 + FromHex(h2) == Sum(p.payload), reply, q, out)
  {
    hide FromHex, Sum, Frame;
    var q := p.(state := Cksum1);
    var r := q.(state := Cksum2, cksum1 := FromHex(h1) * 16);
    FeedOne(p, HASH, reply);
    FeedOne(q, h1, reply);
    FeedOne(r, h2, reply);
    hide Feed;
    FeedConcat(q, [h1], [h2], reply);
    FeedConcat(p, [HASH], [h1, h2], reply);
    assert [h1] + [h2] == [h1, h2] && [HASH] + [h1, h2] == [HASH, h1, h2];
  }

  // Every packet that fits, once sent, is received as it was.
  lemma SentIsReceived(p: Parser, payload: seq<byte>, reply: Option<seq<byte>>)
    requires (p.state == New || p.state == Data) && Plain(payload) && |payload| <= MAX
    ensures var (q, out) := Feed(p, Frame(payload), reply); Outcome(payload, true, reply, q, out)
  {
    hide Feed, Sum, ToHex, FromHex;
    var sum := Sum(payload);
    UnhexDigits(sum);
    ReceivePacket(p, payload, ToHex(sum / 16), ToHex(sum), reply);
  }

  lemma {:induction false} SumConcat(a: seq<byte>, b: seq<byte>)
    ensures Sum(a + b) == (Sum(a) + Sum(b)) % 256
  {
    hide Sum;
    if b == [] {
      assert a + b == a;
      SumNone();
    } else {
      var front, last := b[..|b| - 1], b[|b| - 1];
      assert a + b == (a + front) + [last] && b == front + [last];
      SumConcat(a, front);
      SumStep(a + front, last);
      SumStep(front, last);
      Regrouped(Sum(a), Sum(front), last);
    }
  }

  lemma SumNone()
    ensures Sum([]) == 0
  {
  }

  lemma Regrouped(x: int, y: int, c: int)
    ensures ((x + y) % 256 + c) % 256 == (x + (y + c) % 256) % 256
  {
    ModAdd(x + y, c, 256);
    ModAdd(y + c, x, 256);
  }

  lemma SumStep(s: seq<byte>, c: byte)
    ensures Sum(s + [c]) == (Sum(s) + c) % 256
  {
    assert (s + [c])[..|s|] == s;
  }

  // The checksum of a payload that is too long does not always fail: it is
  // accepted, cut short, exactly if the bytes dropped add up to zero.
  lemma TooLong(p: Parser, payload: seq<byte>, reply: Option<seq<byte>>)
    requires (p.state == New || p.state == Data) && Plain(payload) && |payload| > MAX
    ensures var (q, out) := Feed(p, Frame(payload), reply);
            Outcome(payload[..MAX], Sum(payload[MAX..]) == 0, reply, q, out)
  {
    hide Feed, Sum, ToHex, FromHex;
    var sum := Sum(payload);
    UnhexDigits(sum);
    ReceivePacket(p, payload, ToHex(sum / 16), ToHex(sum), reply);
    SumConcat(payload[..MAX], payload[MAX..]);
    assert payload == payload[..MAX] + payload[MAX..];
  }

  // For example, a single null byte too many goes unnoticed.
  lemma OneTooMany(p: Parser, payload: seq<byte>, reply: Option<seq<byte>>)
    requires (p.state == New || p.state == Data) && Plain(payload) && |payload| == MAX
    ensures var (q, out) := Feed(p, Frame(payload + [0]), reply); Outcome(payload, true, reply, q, out)
  {
    hide Feed, Frame;
    var long := payload + [0];
    assert long[MAX..] == [0] && long[..MAX] == payload;
    assert Sum([0]) == 0;
    TooLong(p, long, reply);
  }

  // Until it is acknowledged, a packet is sent again, the same each time.
  lemma {:induction false} Resent(p: Parser, s: seq<byte>, reply: Option<seq<byte>>)
    requires p.state == WaitAck && forall i :: 0 <= i < |s| ==> s[i] != PLUS
    ensures var (q, out) := Feed(p, s, reply);
            q == p && |out| == |s| && forall i :: 0 <= i < |out| ==> out[i] == Send(Frame(p.payload))
    decreases |s|
  {
    hide Frame;
    if s != [] {
      Resent(p, s[1..], reply);
    }
  }

  // Between packets, everything up to the next '$' is ignored.
  lemma {:induction false} Ignored(p: Parser, s: seq<byte>, reply: Option<seq<byte>>)
    requires p.state == New && 0x24 !in s
    ensures Feed(p, s, reply) == (p, [])
    decreases |s|
  {
    if s != [] {
      assert s[0] in s && (forall c :: c in s[1..] ==> c in s);
      Ignored(p, s[1..], reply);
      assert Step(p, s[0], reply) == (p, []);
      assert [] + Feed(p, s[1..], reply).1 == [];
    }
  }

  // ---- Conversations ------------------------------------------------------

  /** A command from the debugger and its reply, if it has one. `noise` is what
      the debugger sends instead of an acknowledgement before it sends one. */
  datatype Exchange = Exchange(command: seq<byte>, reply: Option<seq<byte>>, noise: seq<byte>)

  ghost predicate Proper(e: Exchange) {
    Plain(e.command) && 0 < |e.command| <= MAX && 0x2b !in e.noise
  }

  // What the debugger sends: the acknowledgement is a '+'.
  function Sent(e: Exchange): seq<byte> {
    Frame(e.command) + if e.reply.Some? then e.noise + [0x2b] else []
  }

  // The same output n times
  function Times(out: Out, n: nat): seq<Out> {
    seq(n, _ => out)
  }

  // What comes of it: the command is acknowledged and passed on once, and its
  // reply sent once, and once more for each byte that is no acknowledgement.
  function Heard(e: Exchange): seq<Out> {
    [Send([0x2b]), Deliver(e.command)]
    + if e.reply.Some? then Times(Send(Frame(e.reply.value)), 1 + |e.noise|) else []
  }

  lemma Exchanged(p: Parser, e: Exchange)
    requires p.state == New && Proper(e)
    ensures var (q, out) := Feed(p, Sent(e), e.reply); q.state == New && out == Heard(e)
  {
    hide Feed, Frame;
    SentIsReceived(p, e.command, e.reply);
    var (q, out) := Feed(p, Frame(e.command), e.reply);
    if e.reply.Some? {
      FeedConcat(p, Frame(e.command), e.noise + [0x2b], e.reply);
      FeedConcat(q, e.noise, [0x2b], e.reply);
      Resent(q, e.noise, e.reply);
      FeedOne(q, 0x2b, e.reply);
      assert Feed(q, e.noise, e.reply).1 == Times(Send(Frame(e.reply.value)), |e.noise|);
      assert Times(Send(Frame(e.reply.value)), |e.noise|) + [] == Times(Send(Frame(e.reply.value)), |e.noise|);
    } else {
      assert Sent(e) == Frame(e.command);
    }
  }

  function Converse(p: Parser, es: seq<Exchange>): (Parser, seq<Out>)
    decreases |es|
  {
    if es == [] then (p, [])
    else
      var (q, out) := Feed(p, Sent(es[0]), es[0].reply);
      var (r, rest) := Converse(q, es[1..]);
      (r, out + rest)
  }

  function HeardAll(es: seq<Exchange>): seq<Out>
    decreases |es|
  {
    if es == [] then [] else Heard(es[0]) + HeardAll(es[1..])
  }

  // In a whole conversation every command is passed on once, in order, and every
  // reply sent until it is acknowledged.
  lemma {:induction false} Conversation(p: Parser, es: seq<Exchange>)
    requires p.state == New && forall i :: 0 <= i < |es| ==> Proper(es[i])
    ensures var (q, out) := Converse(p, es); q.state == New && out == HeardAll(es)
    decreases |es|
  {
    hide Feed, Sent, Heard;
    if es != [] {
      Exchanged(p, es[0]);
      Conversation(Feed(p, Sent(es[0]), es[0].reply).0, es[1..]);
    }
  }

  // "$OK#9a"
  lemma OkFrame()
    ensures Frame([0x4f, 0x4b]) == [0x24, 0x4f, 0x4b, 0x23, 0x39, 0x61]
  {
    hide Sum, ToHex, FromHex;
    var o: byte, k: byte := 0x4f, 0x4b;
    assert [] + [o] + [k] == [o, k] && [] + [o] == [o];
    SumNone();
    SumStep([], o);
    SumStep([o], k);
    DigitValues(9);
    DigitValues(0);
    SameDigit(0x9a, 10);
  }

  // The digits of both cases
  lemma DigitValues(n: int)
    ensures 0 <= n < 10 ==> FromHex(0x30 + n) == n && ToHex(n) == 0x30 + n
    ensures 0 <= n < 6 ==> FromHex(0x61 + n) == 10 + n && FromHex(0x41 + n) == 10 + n && ToHex(10 + n) == 0x61 + n
  {
  }
}
