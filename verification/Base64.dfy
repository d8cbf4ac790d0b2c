/**
 Base64 encoding and decoding: base64.c, which works on a running bit number,
 against the 24-bit groups of section 4 of RFC 4648.
 */
module Base64 {
  import opened Words

  const PAD: byte := 0x3d

  // The alphabet
  function Symbol(i: int): byte
    requires 0 <= i < 64
  {
    if i < 26 then 0x41 + i
    else if i < 52 then 0x61 + (i - 26)
    else if i < 62 then 0x30 + (i - 52)
    else if i == 62 then 0x2b
    else 0x2f
  }

  // The position of a character in the alphabet, or -1
  function Value(c: byte): (v: int)
    ensures -1 <= v < 64 && (v >= 0 ==> Symbol(v) == c)
    ensures forall i :: 0 <= i < 64 && Symbol(i) == c ==> v == i
  {
    if 0x41 <= c <= 0x5a then c - 0x41
    else if 0x61 <= c <= 0x7a then c - 0x61 + 26
    else if 0x30 <= c <= 0x39 then c - 0x30 + 52
    else if c == 0x2b then 62
    else if c == 0x2f then 63
    else -1
  }

  // strchr() over the alphabet
  method Find(c: byte) returns (v: int)
    ensures v == Value(c)
  {
    for i := 0 to 64
      invariant forall j :: 0 <= j < i ==> Symbol(j) != c
    {
      if Symbol(i) == c {
        return i;
      }
    }
    return -1;
  }

  // ---- The standard -------------------------------------------------------

  function Group(a: int, b: int, c: int): int {
    a * 0x1_0000 + b * 0x100 + c
  }

  // Each group of three bytes is four characters; the last may be padded.
  function Rfc(raw: seq<byte>): seq<byte> {
    if |raw| == 0 then []
    else if |raw| == 1 then [Symbol(raw[0] / 4), Symbol(raw[0] % 4 * 16), PAD, PAD]
    else if |raw| == 2 then
      [Symbol(raw[0] / 4), Symbol(raw[0] % 4 * 16 + raw[1] / 16), Symbol(raw[1] % 16 * 4), PAD]
    else
      var group := Group(raw[0], raw[1], raw[2]);
      [Symbol(group / 0x4_0000), Symbol(group / 0x1000 % 64), Symbol(group / 64 % 64), Symbol(group % 64)]
      + Rfc(raw[3..])
  }

  // base64_encoded_len()
  function EncodedLen(n: nat): nat {
    (n + 2) / 3 * 4
  }

  // The number of characters that carry data
  function Sextets(n: nat): nat {
    (8 * n + 5) / 6
  }

  function At(s: seq<byte>, i: int): byte {
    if 0 <= i < |s| then s[i] else 0
  }

  // Six bits of the data
  function Sextet(raw: seq<byte>, k: nat): (v: int)
    ensures 0 <= v < 64
  {
    var j := k / 4 * 3;
    if k % 4 == 0 then At(raw, j) / 4
    else if k % 4 == 1 then At(raw, j) % 4 * 16 + At(raw, j + 1) / 16
    else if k % 4 == 2 then At(raw, j + 1) % 16 * 4 + At(raw, j + 2) / 64
    else At(raw, j + 2) % 64
  }

  lemma GroupBits(a: byte, b: byte, c: byte)
    ensures Group(a, b, c) / 0x4_0000 == a / 4
    ensures Group(a, b, c) / 0x1000 % 64 == a % 4 * 16 + b / 16
    ensures Group(a, b, c) / 64 % 64 == b % 16 * 4 + c / 64
    ensures Group(a, b, c) % 64 == c % 64
  {
    Digits(a / 4, a % 4 * 16 + b / 16, b % 16 * 4 + c / 64, c % 64);
  }

  lemma Digits(p: int, q: int, r: int, s: int)
    requires 0 <= p < 64 && 0 <= q < 64 && 0 <= r < 64 && 0 <= s < 64
    ensures var n := p * 0x4_0000 + q * 0x1000 + r * 64 + s;
            n / 0x4_0000 == p && n / 0x1000 % 64 == q && n / 64 % 64 == r && n % 64 == s
  {
    var n := p * 0x4_0000 + q * 0x1000 + r * 64 + s;
    assert n / 0x1000 == p * 64 + q;
    assert n / 64 == (p * 64 + q) * 64 + r;
  }

  lemma SextetTail(raw: seq<byte>, k: nat)
    requires |raw| >= 3 && k >= 4
    ensures Sextet(raw, k) == Sextet(raw[3..], k - 4)
  {
    assert forall i :: i >= 3 ==> At(raw, i) == At(raw[3..], i - 3);
    assert (k - 4) / 4 == k / 4 - 1 && (k - 4) % 4 == k % 4;
    assert k / 4 * 3 >= 3;
  }

  // The standard's encoding, character by character
  lemma {:induction false} RfcAt(raw: seq<byte>, i: nat)
    requires i < EncodedLen(|raw|)
    ensures |Rfc(raw)| == EncodedLen(|raw|)
    ensures Rfc(raw)[i] == if i < Sextets(|raw|) then Symbol(Sextet(raw, i)) else PAD
    decreases |raw|
  {
    hide Symbol, Group;
    RfcTail(raw);
    if |raw| < 3 {
      RfcShort(raw, i);
    } else if i < 4 {
      RfcGroup(raw, i);
    } else {
      hide Sextet;
      RfcAt(raw[3..], i - 4);
      SextetTail(raw, i);
    }
  }

  lemma RfcShort(raw: seq<byte>, i: nat)
    requires |raw| < 3 && i < EncodedLen(|raw|) == |Rfc(raw)|
    ensures Rfc(raw)[i] == if i < Sextets(|raw|) then Symbol(Sextet(raw, i)) else PAD
  {
    hide Symbol, Sextet, Rfc;
    FirstSextets(raw);
    if |raw| == 1 {
      RfcOne(raw);
      assert Sextets(1) == 2;
    } else if |raw| == 2 {
      RfcTwo(raw);
      assert Sextets(2) == 3;
    }
  }

  lemma RfcOne(raw: seq<byte>)
    requires |raw| == 1
    ensures Rfc(raw) == [Symbol(raw[0] / 4), Symbol(raw[0] % 4 * 16), PAD, PAD]
  {
    hide Symbol;
  }

  lemma RfcTwo(raw: seq<byte>)
    requires |raw| == 2
    ensures Rfc(raw) == [Symbol(raw[0] / 4), Symbol(raw[0] % 4 * 16 + raw[1] / 16), Symbol(raw[1] % 16 * 4), PAD]
  {
    hide Symbol;
  }

  lemma FirstSextets(raw: seq<byte>)
    ensures Sextet(raw, 0) == At(raw, 0) / 4 && Sextet(raw, 1) == At(raw, 0) % 4 * 16 + At(raw, 1) / 16
    ensures Sextet(raw, 2) == At(raw, 1) % 16 * 4 + At(raw, 2) / 64 && Sextet(raw, 3) == At(raw, 2) % 64
  {
  }

  lemma RfcGroup(raw: seq<byte>, i: nat)
    requires |raw| >= 3 && i < 4
    ensures |Rfc(raw)| >= 4 && Rfc(raw)[i] == Symbol(Sextet(raw, i)) && i < Sextets(|raw|)
  {
    hide Symbol, Group, Sextet;
    GroupBits(raw[0], raw[1], raw[2]);
    FirstSextets(raw);
  }

  lemma {:induction false} RfcTail(raw: seq<byte>)
    ensures |Rfc(raw)| == EncodedLen(|raw|)
    decreases |raw|
  {
    hide Symbol, Group;
    if |raw| >= 3 {
      RfcTail(raw[3..]);
      LongerBy3(|raw|);
    }
  }

  lemma LongerBy3(n: nat)
    requires n >= 3
    ensures EncodedLen(n) == EncodedLen(n - 3) + 4
  {
  }

  // ---- Encoding -----------------------------------------------------------

  // The six bits at a bit position
  method Extract(raw: seq<byte>, bit: nat) returns (tmp: int)
    requires bit % 6 == 0 && bit < 8 * |raw|
    ensures tmp == Sextet(raw, bit / 6)
  {
    hide Shl, Shr, Or, Sextet;
    var i, shift := bit / 8, bit % 8;
    tmp := Shl(raw[i], shift);
    if i + 1 < |raw| {
      tmp := Or(tmp, Shr(raw[i + 1], 8 - shift));
    }
    tmp := tmp / 4 % 64;
    ExtractIs(raw, bit / 6);
  }

  lemma ExtractIs(raw: seq<byte>, k: nat)
    requires 6 * k < 8 * |raw|
    ensures var i, shift := 6 * k / 8, 6 * k % 8;
            && 0 <= i < |raw|
            && Merged(raw[i], At(raw, i + 1), shift) == Sextet(raw, k)
            && (i + 1 >= |raw| ==> Shl(raw[i], shift) / 4 % 64 == Sextet(raw, k))
  {
    hide Shl, Shr, Or, Sextet, Taken;
    var i, shift := 6 * k / 8, 6 * k % 8;
    BitPosition(k);
    Joined(raw[i], At(raw, i + 1), shift);
    ShiftsByEven(0);
    OrZero(Shl(raw[i], shift));
    SextetTaken(raw, k);
  }

  lemma BitPosition(k: nat)
    ensures 6 * k / 8 == k / 4 * 3 + (if k % 4 == 0 then 0 else k % 4 - 1)
    ensures 6 * k % 8 == (if k % 4 == 0 then 0 else 8 - 2 * (k % 4))
  {
    assert k == 4 * (k / 4) + k % 4;
    assert 6 * k == 8 * (3 * (k / 4)) + 6 * (k % 4);
  }

  lemma SextetTaken(raw: seq<byte>, k: nat)
    ensures Sextet(raw, k) == Taken(At(raw, 6 * k / 8), At(raw, 6 * k / 8 + 1), 6 * k % 8)
  {
    BitPosition(k);
  }

  function Taken(a: int, b: int, shift: int): int {
    if shift == 0 then a / 4
    else if shift == 6 then a % 4 * 16 + b / 16
    else if shift == 4 then a % 16 * 4 + b / 64
    else a % 64
  }

  // Two neighbouring bytes, shifted and joined, and then cut to six bits
  function Merged(a: nat, b: nat, shift: nat): int
    requires shift <= 8
  {
    Or(Shl(a, shift), Shr(b, 8 - shift)) / 4 % 64
  }

  lemma Joined(a: byte, b: byte, shift: nat)
    requires shift == 0 || shift == 2 || shift == 4 || shift == 6
    ensures Merged(a, b, shift) == Taken(a, b, shift)
  {
    hide Merged, Taken;
    if shift == 0 {
      Joined0(a, b);
    } else if shift == 2 {
      Joined2(a, b);
    } else if shift == 4 {
      Joined4(a, b);
    } else {
      Joined6(a, b);
    }
  }

  lemma Joined0(a: byte, b: byte)
    ensures Merged(a, b, 0) == Taken(a, b, 0)
  {
    hide Shl, Shr, Or, Taken;
    ShiftsByEven(a);
    ShiftsByEven(b);
    TakenBits(a, b);
    OrZero(a);
  }

  lemma Joined2(a: byte, b: byte)
    ensures Merged(a, b, 2) == Taken(a, b, 2)
  {
    hide Shl, Shr, Or, Taken;
    ShiftsByEven(a);
    ShiftsByEven(b);
    TakenBits(a, b);
    OrBelow(a * 4, b / 64);
  }

  lemma Joined4(a: byte, b: byte)
    ensures Merged(a, b, 4) == Taken(a, b, 4)
  {
    hide Shl, Shr, Or, Taken;
    ShiftsByEven(a);
    ShiftsByEven(b);
    TakenBits(a, b);
    OrBelow(a * 16, b / 16);
  }

  lemma Joined6(a: byte, b: byte)
    ensures Merged(a, b, 6) == Taken(a, b, 6)
  {
    hide Shl, Shr, Or, Taken;
    ShiftsByEven(a);
    ShiftsByEven(b);
    TakenBits(a, b);
    OrBelow(a * 64, b / 4);
  }

  lemma OrZero(a: nat)
    ensures Or(a, 0) == a
  {
  }

  lemma TakenBits(a: byte, b: byte)
    ensures (a + b / 256) / 4 % 64 == Taken(a, b, 0)
    ensures (a * 64 + b / 4) / 4 % 64 == Taken(a, b, 6)
    ensures (a * 16 + b / 16) / 4 % 64 == Taken(a, b, 4)
    ensures (a * 4 + b / 64) / 4 % 64 == Taken(a, b, 2)
  {
    Quarter(a * 16, b / 4);
    Quarter(a * 4, b / 16);
    Quarter(a, b / 64);
    assert a * 16 + b / 16 == a / 4 * 64 + (a % 4 * 16 + b / 16);
    Reduced(a / 4, a % 4 * 16 + b / 16);
    assert a * 4 + b / 64 == a / 16 * 64 + (a % 16 * 4 + b / 64);
    Reduced(a / 16, a % 16 * 4 + b / 64);
  }

  lemma Quarter(x: int, y: int)
    ensures (4 * x + y) / 4 == x + y / 4
  {
  }

  lemma Reduced(q: int, x: int)
    requires 0 <= x < 64
    ensures (q * 64 + x) % 64 == x
  {
  }

  lemma Lengths(n: nat)
    ensures var q, r := n / 3, n % 3;
            && Sextets(n) == 4 * q + (if r == 0 then 0 else r + 1)
            && EncodedLen(n) == 4 * q + (if r == 0 then 0 else 4)
  {
    var q, r := n / 3, n % 3;
    assert n == 3 * q + r;
    assert 8 * n + 5 == 6 * (4 * q) + (8 * r + 5);
  }

  lemma PaddingEnds(n: nat, u: nat)
    requires Sextets(n) <= u <= EncodedLen(n)
    ensures 6 * u % 8 == 0 <==> u == EncodedLen(n)
  {
    hide Sextets, EncodedLen;
    Lengths(n);
    BitPosition(u);
  }

  // The bit number does not wrap within the data.
  lemma DataBits(n: nat, used: nat)
    requires n < 0x2000_0000 && used <= Sextets(n)
    ensures BitNumber(used, 0) == 6 * used && (6 * used < 8 * n <==> used < Sextets(n))
    ensures (BitNumber(used, 0) + 6) % 0x1_0000_0000 == BitNumber(used + 1, 0)
    ensures Sextets(n) <= EncodedLen(n)
  {
    DivModUnique(6 * used, 0x1_0000_0000, 0, 6 * used);
    SextetsFit(n);
  }

  // It may wrap in the padding, without effect on what is padded.
  lemma PaddingBits(n: nat, used: nat)
    requires Sextets(n) <= used <= EncodedLen(n)
    ensures BitNumber(used, 0) % 8 == 0 <==> used == EncodedLen(n)
    ensures (BitNumber(used, 0) + 6) % 0x1_0000_0000 == BitNumber(used + 1, 0)
  {
    hide Sextets, EncodedLen;
    PaddingEnds(n, used);
    ModMod(6 * used, 0x1_0000_0000, 8);
    ModAdd(6 * used, 6, 0x1_0000_0000);
  }

  // The characters written so far that fit in the buffer
  ghost predicate Wrote(data: array<byte>, s: seq<byte>, used: int)
    reads data
  {
    0 <= used <= |s| && forall i :: 0 <= i < used && i < data.Length ==> data[i] == s[i]
  }

  // The loop over the data ends: the bit number is 32 bits wide and is compared
  // with a wider length, so after k rounds it is 6 k modulo two to the power of 32.
  ghost predicate LoopEnds(n: nat) {
    exists k: nat :: BitNumber(k, 0) >= 8 * n
  }

  // It does exactly for fewer than two to the power of 29 bytes.
  lemma EncodeEndsExactly(n: nat)
    ensures LoopEnds(n) <==> n < 0x2000_0000
  {
    if n < 0x2000_0000 {
      var k := Sextets(n);
      DivModUnique(6 * k, 0x1_0000_0000, 0, 6 * k);
      assert BitNumber(k, 0) >= 8 * n;
    }
  }

  // base64_encode(), of data for which it ends
  method Encode(raw: seq<byte>, data: array<byte>) returns (used: int)
    requires |raw| < 0x2000_0000
    modifies data
    ensures used == EncodedLen(|raw|) == |Rfc(raw)|
    ensures forall i :: 0 <= i < used && i < data.Length - 1 ==> data[i] == Rfc(raw)[i]
    ensures used < data.Length ==> data[used] == 0
    ensures data.Length > 0 ==> data[data.Length - 1] == 0
    ensures forall i :: used < i < data.Length - 1 ==> data[i] == old(data[i])
  {
    hide Rfc, Sextet, Symbol, EncodedLen, Sextets, BitNumber;
    used := 0;
    var bit := 0;
    RfcTail(raw);
    DataBits(|raw|, 0);
    while bit < 8 * |raw|
      invariant bit == BitNumber(used, 0) && 0 <= used <= Sextets(|raw|) && Wrote(data, Rfc(raw), used)
      invariant forall i :: used <= i < data.Length ==> data[i] == old(data[i])
      decreases Sextets(|raw|) - used
    {
      DataBits(|raw|, used);
      var tmp := Extract(raw, bit);
      RfcAt(raw, used);
      if used < data.Length {
        data[used] := Symbol(tmp);
      }
      bit := (bit + 6) % 0x1_0000_0000;
      used := used + 1;
    }
    DataBits(|raw|, used);
    while bit % 8 != 0
      invariant bit == BitNumber(used, 0) && Sextets(|raw|) <= used <= EncodedLen(|raw|)
      invariant Wrote(data, Rfc(raw), used)
      invariant forall i :: used <= i < data.Length ==> data[i] == old(data[i])
      decreases EncodedLen(|raw|) - used
    {
      PaddingBits(|raw|, used);
      RfcAt(raw, used);
      if used < data.Length {
        data[used] := PAD;
      }
      bit := (bit + 6) % 0x1_0000_0000;
      used := used + 1;
    }
    PaddingBits(|raw|, used);
    if used < data.Length {
      data[used] := 0;
    }
    if data.Length > 0 {
      data[data.Length - 1] := 0;
    }
  }

  // ---- Decoding -----------------------------------------------------------

  // Without white space
  function Strip(s: seq<byte>): seq<byte> {
    if s == [] then []
    else Strip(s[..|s| - 1]) + (if IsSpace(s[|s| - 1]) then [] else [s[|s| - 1]])
  }

  // The number of alphabet characters at the start
  function Lead(t: seq<byte>): (k: nat)
    ensures k <= |t| && (forall i :: 0 <= i < k ==> Value(t[i]) >= 0) && (k < |t| ==> Value(t[k]) < 0)
  {
    if t == [] then 0
    else
      var k := Lead(t[..|t| - 1]);
      if k == |t| - 1 && Value(t[k]) >= 0 then k + 1 else k
  }

  // Alphabet characters, and then at most two pad characters
  predicate Shape(t: seq<byte>) {
    |t| - Lead(t) <= 2 && forall i :: Lead(t) <= i < |t| ==> t[i] == PAD
  }

  // The strings that base64_decode() accepts, white space apart
  predicate WellFormed(t: seq<byte>) {
    Shape(t) && |t| % 4 == 0
  }

  function Values(t: seq<byte>): (vs: seq<int>)
    requires forall i :: 0 <= i < |t| ==> Value(t[i]) >= 0
    ensures |vs| == |t| && forall i :: 0 <= i < |t| ==> 0 <= vs[i] < 64
  {
    seq(|t|, i requires 0 <= i < |t| => Value(t[i]))
  }

  function V(vs: seq<int>, i: int): int {
    if 0 <= i < |vs| then vs[i] else 0
  }

  // Eight bits of the decoded data
  function Octet(vs: seq<int>, j: nat): int {
    var k := j / 3 * 4;
    if j % 3 == 0 then V(vs, k) * 4 + V(vs, k + 1) / 16
    else if j % 3 == 1 then V(vs, k + 1) % 16 * 16 + V(vs, k + 2) / 4
    else V(vs, k + 2) % 4 * 64 + V(vs, k + 3)
  }

  ghost predicate InRange(vs: seq<int>) {
    forall i :: 0 <= i < |vs| ==> 0 <= vs[i] < 64
  }

  // What one more character adds, to two neighbouring bytes
  lemma OctetAppend(vs: seq<int>, v: int)
    requires InRange(vs) && 0 <= v < 64
    ensures var offset, r := 6 * |vs| / 8, 6 * |vs| % 8;
            && 0 <= Octet(vs, offset) && Or(Octet(vs, offset), Shr(v * 4, r)) == Octet(vs + [v], offset)
            && Octet(vs, offset + 1) == 0 && Octet(vs + [v], offset + 1) == Shl(v * 4, 8 - r) % 256
  {
    hide Shl, Shr, Or, Octet;
    var k := |vs|;
    BitPosition(k);
    ShiftsByEven(v * 4);
    if k % 4 == 0 {
      Append0(vs, v);
    } else if k % 4 == 1 {
      Append1(vs, v);
    } else if k % 4 == 2 {
      Append2(vs, v);
    } else {
      Append3(vs, v);
    }
  }

  lemma Append0(vs: seq<int>, v: int)
    requires InRange(vs) && 0 <= v < 64 && |vs| % 4 == 0
    ensures var offset := 6 * |vs| / 8;
            && Octet(vs, offset) == 0 && Or(0, v * 4) == Octet(vs + [v], offset)
            && Octet(vs, offset + 1) == 0 && Octet(vs + [v], offset + 1) == v * 4 * 256 % 256
  {
    hide V, Or;
    AppendedAt(vs, v);
    OctetIndex(|vs|);
    OrBelow(0, v * 4);
  }

  lemma Append1(vs: seq<int>, v: int)
    requires InRange(vs) && 0 <= v < 64 && |vs| % 4 == 1
    ensures var offset := 6 * |vs| / 8;
            && 0 <= Octet(vs, offset) && Or(Octet(vs, offset), v * 4 / 64) == Octet(vs + [v], offset)
            && Octet(vs, offset + 1) == 0 && Octet(vs + [v], offset + 1) == v * 4 * 4 % 256
  {
    hide V, Or;
    AppendedAt(vs, v);
    OctetIndex(|vs|);
    OrBelow(Octet(vs, 6 * |vs| / 8), v * 4 / 64);
  }

  lemma Append2(vs: seq<int>, v: int)
    requires InRange(vs) && 0 <= v < 64 && |vs| % 4 == 2
    ensures var offset := 6 * |vs| / 8;
            && 0 <= Octet(vs, offset) && Or(Octet(vs, offset), v * 4 / 16) == Octet(vs + [v], offset)
            && Octet(vs, offset + 1) == 0 && Octet(vs + [v], offset + 1) == v * 4 * 16 % 256
  {
    hide V, Or;
    AppendedAt(vs, v);
    OctetIndex(|vs|);
    OrBelow(Octet(vs, 6 * |vs| / 8), v * 4 / 16);
  }

  lemma Append3(vs: seq<int>, v: int)
    requires InRange(vs) && 0 <= v < 64 && |vs| % 4 == 3
    ensures var offset := 6 * |vs| / 8;
            && 0 <= Octet(vs, offset) && Or(Octet(vs, offset), v * 4 / 4) == Octet(vs + [v], offset)
            && Octet(vs, offset + 1) == 0 && Octet(vs + [v], offset + 1) == v * 4 * 64 % 256
  {
    hide V, Or;
    AppendedAt(vs, v);
    OctetIndex(|vs|);
    OrBelow(Octet(vs, 6 * |vs| / 8), v * 4 / 4);
  }

  lemma OctetIndex(k: nat)
    ensures var offset := 6 * k / 8;
            && (k % 4 == 0 ==> offset / 3 * 4 == k && offset % 3 == 0
                               && (offset + 1) / 3 * 4 == k && (offset + 1) % 3 == 1)
            && (k % 4 == 1 ==> offset / 3 * 4 == k - 1 && offset % 3 == 0
                               && (offset + 1) / 3 * 4 == k - 1 && (offset + 1) % 3 == 1)
            && (k % 4 == 2 ==> offset / 3 * 4 == k - 2 && offset % 3 == 1
                               && (offset + 1) / 3 * 4 == k - 2 && (offset + 1) % 3 == 2)
            && (k % 4 == 3 ==> offset / 3 * 4 == k - 3 && offset % 3 == 2
                               && (offset + 1) / 3 * 4 == k + 1 && (offset + 1) % 3 == 0)
  {
    BitPosition(k);
  }

  lemma AppendedAt(vs: seq<int>, v: int)
    requires InRange(vs) && 0 <= v < 64
    ensures V(vs + [v], |vs|) == v && V(vs, |vs|) == 0
    ensures forall i :: i != |vs| ==> V(vs + [v], i) == V(vs, i)
    ensures forall i :: i > |vs| ==> V(vs, i) == 0
    ensures forall i :: 0 <= V(vs, i) < 64
  {
  }

  lemma OctetElsewhere(vs: seq<int>, v: int, j: nat)
    requires InRange(vs) && 0 <= v < 64 && j != 6 * |vs| / 8 && j != 6 * |vs| / 8 + 1
    ensures Octet(vs + [v], j) == Octet(vs, j)
  {
    hide V;
    AppendedAt(vs, v);
    BitPosition(|vs|);
  }

  // The buffer holds the bytes of these six-bit values, then zeros.
  ghost predicate Decoded(data: array<byte>, vs: seq<int>)
    reads data
  {
    forall j :: 0 <= j < data.Length ==> data[j] == Octet(vs, j)
  }

  // Add six bits to the data.
  method AddBits(data: array<byte>, ghost vs: seq<int>, v: int, bit: nat)
    requires 0 <= v < 64
    modifies data
    ensures InRange(vs) && bit == 6 * |vs| && old(Decoded(data, vs)) ==> Decoded(data, vs + [v])
  {
    hide Octet, Or, Shl, Shr;
    if InRange(vs) && bit == 6 * |vs| {
      BitsAdded(vs, v);
    }
    var inBits := v * 4;
    var offset := bit / 8;
    if offset < data.Length {
      ShiftedByte(data[offset], inBits, bit % 8);
      data[offset] := Or(data[offset], Shr(inBits, bit % 8));
    }
    offset := offset + 1;
    if offset < data.Length {
      OrByte(data[offset], Shl(inBits, 8 - bit % 8) % 256);
      data[offset] := Or(data[offset], Shl(inBits, 8 - bit % 8) % 256);
    }
  }

  lemma BitsAdded(vs: seq<int>, v: int)
    requires InRange(vs) && 0 <= v < 64
    ensures var bit := 6 * |vs|;
            && Octet(vs + [v], bit / 8) == Or(Octet(vs, bit / 8), Shr(v * 4, bit % 8))
            && Octet(vs + [v], bit / 8 + 1) == Or(Octet(vs, bit / 8 + 1), Shl(v * 4, 8 - bit % 8) % 256)
            && forall j: nat :: j != bit / 8 && j != bit / 8 + 1 ==> Octet(vs + [v], j) == Octet(vs, j)
  {
    hide Octet, Or, Shl, Shr;
    var bit := 6 * |vs|;
    OctetAppend(vs, v);
    OctetIsByte(vs, bit / 8);
    forall j: nat | j != bit / 8 && j != bit / 8 + 1
      ensures Octet(vs + [v], j) == Octet(vs, j)
    {
      OctetElsewhere(vs, v, j);
    }
    ZeroOr(Shl(v * 4, 8 - bit % 8) % 256);
  }

  lemma ShiftedByte(x: byte, y: byte, k: nat)
    ensures Or(x, Shr(y, k)) < 256
  {
    hide Or;
    ShrShrinks(y, k);
    OrByte(x, Shr(y, k));
  }

  lemma ZeroOr(y: nat)
    ensures Or(0, y) == y
  {
  }

  lemma OctetIsByte(vs: seq<int>, j: nat)
    requires InRange(vs)
    ensures 0 <= Octet(vs, j) < 256
  {
    assert forall i :: 0 <= V(vs, i) < 64;
  }

  // ---- Which strings are accepted -----------------------------------------

  lemma LeadAppend(t: seq<byte>, c: byte)
    ensures Lead(t + [c]) == if Lead(t) == |t| && Value(c) >= 0 then |t| + 1 else Lead(t)
  {
    assert (t + [c])[..|t|] == t;
  }

  // A string that is not of the right shape never becomes so.
  lemma {:induction false} ShapePrefix(t: seq<byte>, u: seq<byte>)
    requires Shape(t + u)
    ensures Shape(t)
    decreases |u|
  {
    hide Lead;
    if u == [] {
      assert t + u == t;
    } else {
      var front, c := u[..|u| - 1], u[|u| - 1];
      assert t + u == (t + front) + [c];
      LeadAppend(t + front, c);
      ShapeFront(t + front, c);
      ShapePrefix(t, front);
    }
  }

  lemma ShapeFront(t: seq<byte>, c: byte)
    requires Shape(t + [c])
    ensures Shape(t)
  {
    hide Lead;
    LeadAppend(t, c);
    assert forall i :: 0 <= i < |t| ==> (t + [c])[i] == t[i];
  }

  lemma {:induction false} StripPrefix(s: seq<byte>, i: nat)
    requires i <= |s|
    ensures exists u :: Strip(s) == Strip(s[..i]) + u
    decreases |s| - i
  {
    hide IsSpace, Strip;
    if i == |s| {
      assert s[..i] == s;
      assert Strip(s) == Strip(s[..i]) + [];
    } else {
      StripPrefix(s, i + 1);
      var u :| Strip(s) == Strip(s[..i + 1]) + u;
      StripNext(s, i);
      if !IsSpace(s[i]) {
        assert Strip(s) == Strip(s[..i]) + ([s[i]] + u);
      }
    }
  }

  lemma StripNext(s: seq<byte>, i: nat)
    requires i < |s|
    ensures Strip(s[..i + 1]) == if IsSpace(s[i]) then Strip(s[..i]) else Strip(s[..i]) + [s[i]]
  {
    assert s[..i + 1][..i] == s[..i];
  }

  // A prefix that is not of the right shape: the string is refused.
  lemma Refused(s: seq<byte>, i: nat)
    requires i <= |s| && !Shape(Strip(s[..i]))
    ensures !WellFormed(Strip(s))
  {
    hide Shape, Strip;
    StripPrefix(s, i);
    var u :| Strip(s) == Strip(s[..i]) + u;
    if Shape(Strip(s)) {
      ShapePrefix(Strip(s[..i]), u);
    }
  }

  // The data characters of a string of the right shape
  function Data(t: seq<byte>): seq<int> {
    Values(t[..Lead(t)])
  }

  // The bit number does not wrap on the way through the data.
  const MAX_LEAD := 0x2aaa_aaaa

  // The number of bytes in an accepted string
  function DecodedLen(t: seq<byte>): int {
    |t| / 4 * 3 - (|t| - Lead(t))
  }

  lemma BitCount(k: nat, pads: nat)
    requires pads <= 2
    ensures (6 * k - 2 * pads) % 8 == 0 <==> (k + pads) % 4 == 0
    ensures (k + pads) % 4 == 0 ==> (6 * k - 2 * pads) / 8 == (k + pads) / 4 * 3 - pads
  {
    var n := k + pads;
    assert 6 * k - 2 * pads == 6 * n - 8 * pads;
    BitPosition(n);
    assert (6 * n - 8 * pads) % 8 == 6 * n % 8;
  }

  function BitNumber(k: nat, pads: nat): int {
    (6 * k - 2 * pads) % 0x1_0000_0000
  }

  // The decoder after the characters t, white space apart
  ghost predicate Reading(t: seq<byte>, bit: int, padCount: int) {
    Shape(t) && padCount == |t| - Lead(t) && bit == BitNumber(Lead(t), padCount)
  }

  // One character
  method Take(data: array<byte>, c: byte, bit: int, padCount: int, ghost t: seq<byte>)
      returns (ok: bool, bit': int, padCount': int)
    requires Reading(t, bit, padCount) && (Lead(t) <= MAX_LEAD ==> Decoded(data, Data(t)))
    modifies data
    ensures var u := if IsSpace(c) then t else t + [c];
            if ok then Reading(u, bit', padCount') && (Lead(u) <= MAX_LEAD ==> Decoded(data, Data(u))) else !Shape(u)
  {
    hide Octet, Lead, Decoded, Shape, Data, IsSpace, Value, BitNumber;
    BitNumberNext(Lead(t), |t| - Lead(t));
    ok, bit', padCount' := true, bit, padCount;
    NextShape(t, c);
    if IsSpace(c) {
      return;
    }
    if c == PAD {
      if padCount >= 2 {
        ok := false;
        return;
      }
      padCount' := padCount + 1;
      bit' := (bit - 2) % 0x1_0000_0000;
      return;
    }
    if padCount > 0 {
      ok := false;
      return;
    }
    var v := Find(c);
    if v < 0 {
      ok := false;
      return;
    }
    AddBits(data, Data(t), v, bit);
    bit' := (bit + 6) % 0x1_0000_0000;
  }

  lemma BitNumberNext(k: nat, pads: int)
    requires pads >= 0
    ensures (BitNumber(k, pads) - 2) % 0x1_0000_0000 == BitNumber(k, pads + 1)
    ensures (BitNumber(k, 0) + 6) % 0x1_0000_0000 == BitNumber(k + 1, 0)
    ensures k <= MAX_LEAD ==> BitNumber(k, 0) == 6 * k
    ensures BitNumber(k, pads) >= 0
  {
    ModAdd(6 * k - 2 * pads, -2, 0x1_0000_0000);
    ModAdd(6 * k, 6, 0x1_0000_0000);
    assert 6 * k - 2 * pads + -2 == 6 * k - 2 * (pads + 1);
    if k <= MAX_LEAD {
      DivModUnique(6 * k, 0x1_0000_0000, 0, 6 * k);
    }
  }

  // What one more character does to the shape
  lemma NextShape(t: seq<byte>, c: byte)
    requires Shape(t)
    ensures var u, pads := t + [c], |t| - Lead(t);
            if c == PAD && pads < 2 then Shape(u) && Lead(u) == Lead(t) && Data(u) == Data(t)
            else if c != PAD && pads == 0 && Value(c) >= 0 then
              && Shape(u) && Lead(u) == Lead(t) + 1 && Data(u) == Data(t) + [Value(c)]
              && |Data(t)| == |t| && InRange(Data(t))
            else !Shape(u)
  {
    hide Lead, Value;
    var u := t + [c];
    LeadAppend(t, c);
    PadValue();
    assert forall i :: 0 <= i < |t| ==> u[i] == t[i];
    assert u[|t|] == c;
    if c == PAD {
      assert u[..Lead(u)] == t[..Lead(t)];
    } else if Lead(t) == |t| && Value(c) >= 0 {
      DataAppend(t, c);
    }
  }

  lemma ReadAll(t: seq<byte>, bit: int, padCount: int)
    requires Reading(t, bit, padCount)
    ensures bit % 8 == 0 <==> WellFormed(t)
    ensures bit % 8 == 0 ==> bit / 8 == DecodedLen(t) % 0x2000_0000
  {
    hide Lead, BitNumber, Shape;
    ShapePads(t);
    BitNumberIs(Lead(t), padCount);
  }

  lemma ShapePads(t: seq<byte>)
    requires Shape(t)
    ensures 0 <= |t| - Lead(t) <= 2
  {
  }

  lemma BitNumberIs(k: nat, pads: nat)
    requires pads <= 2
    ensures BitNumber(k, pads) % 8 == 0 <==> (k + pads) % 4 == 0
    ensures (k + pads) % 4 == 0 ==> BitNumber(k, pads) / 8 == ((k + pads) / 4 * 3 - pads) % 0x2000_0000
  {
    BitCount(k, pads);
    var n := 6 * k - 2 * pads;
    ModMod(n, 0x1_0000_0000, 8);
    if (k + pads) % 4 == 0 {
      EighthOfWord(n / 8);
      assert n == 8 * (n / 8);
    }
  }

  lemma EighthOfWord(x: int)
    ensures 8 * x % 0x1_0000_0000 / 8 == x % 0x2000_0000
  {
    var q, r := x / 0x2000_0000, x % 0x2000_0000;
    DivModUnique(8 * x, 0x1_0000_0000, q, 8 * r);
  }

  // base64_decode()
  method Decode(s: seq<byte>, data: array<byte>) returns (r: Option<int>)
    requires forall i :: 0 <= i < |s| ==> s[i] != 0
    modifies data
    ensures r.Some? <==> WellFormed(Strip(s))
    ensures r.Some? ==> r.value == DecodedLen(Strip(s)) % 0x2000_0000
    ensures r.Some? && Lead(Strip(s)) <= MAX_LEAD ==> Decoded(data, Data(Strip(s)))
  {
    hide Strip, Decoded, Data, Reading, WellFormed, Shape, DecodedLen, Lead;
    Zero(data);
    var bit, padCount, i := 0, 0, 0;
    StartEmpty(s, data);
    while i < |s|
      invariant 0 <= i <= |s| && Reading(Strip(s[..i]), bit, padCount)
      invariant Lead(Strip(s[..i])) <= MAX_LEAD ==> Decoded(data, Data(Strip(s[..i])))
    {
      var ok;
      StripNext(s, i);
      ok, bit, padCount := Take(data, s[i], bit, padCount, Strip(s[..i]));
      i := i + 1;
      if !ok {
        Refused(s, i);
        return None;
      }
    }
    assert s[..|s|] == s;
    ReadAll(Strip(s), bit, padCount);
    if bit % 8 != 0 {
      return None;
    }
    return Some(bit / 8);
  }

  lemma PadValue()
    ensures Value(PAD) < 0
  {
  }

  lemma DataAppend(t: seq<byte>, c: byte)
    requires Lead(t) == |t| && Value(c) >= 0
    ensures Data(t + [c]) == Data(t) + [Value(c)] && Lead(t + [c]) == |t| + 1 && |Data(t)| == |t| && InRange(Data(t))
  {
    LeadAppend(t, c);
    assert (t + [c])[..|t| + 1] == t + [c];
    assert t[..|t|] == t;
  }

  method Zero(data: array<byte>)
    modifies data
    ensures forall j :: 0 <= j < data.Length ==> data[j] == 0
  {
    for i := 0 to data.Length
      invariant forall j :: 0 <= j < i ==> data[j] == 0
    {
      data[i] := 0;
    }
  }

  lemma StartEmpty(s: seq<byte>, data: array<byte>)
    requires forall j :: 0 <= j < data.Length ==> data[j] == 0
    ensures Strip(s[..0]) == [] && Reading([], 0, 0) && Decoded(data, Data([]))
  {
    hide Octet;
    assert Data([]) == [];
    NoOctets();
  }

  lemma NoOctets()
    ensures forall j: nat :: Octet([], j) == 0
  {
  }

  // ---- Round trip ---------------------------------------------------------

  lemma LeadIs(t: seq<byte>, k: nat)
    requires k <= |t| && (forall i :: 0 <= i < k ==> Value(t[i]) >= 0) && (k < |t| ==> Value(t[k]) < 0)
    ensures Lead(t) == k
  {
    hide Lead, Value;
  }

  lemma {:induction false} NothingToStrip(t: seq<byte>)
    requires forall i :: 0 <= i < |t| ==> !IsSpace(t[i])
    ensures Strip(t) == t
  {
    hide IsSpace;
    if t != [] {
      NothingToStrip(t[..|t| - 1]);
      assert t == t[..|t| - 1] + [t[|t| - 1]];
    }
  }

  // The encoding has the right shape, and its data characters are the data.
  lemma EncodingShape(raw: seq<byte>)
    ensures var t := Rfc(raw);
            && WellFormed(t) && Strip(t) == t && Lead(t) == Sextets(|raw|) && DecodedLen(t) == |raw|
            && forall k :: 0 <= k < Sextets(|raw|) ==> Data(t)[k] == Sextet(raw, k)
  {
    hide Rfc, Sextet, Lead, EncodedLen, Sextets, Strip, Value, IsSpace, DecodedLen, Shape;
    var t := Rfc(raw);
    RfcTail(raw);
    SextetsFit(|raw|);
    forall i | 0 <= i < |t|
      ensures !IsSpace(t[i])
      ensures if i < Sextets(|raw|) then Value(t[i]) == Sextet(raw, i) else t[i] == PAD && Value(t[i]) < 0
    {
      EncodedAt(raw, i);
    }
    LeadIs(t, Sextets(|raw|));
    NothingToStrip(t);
    ShapeIs(t, |raw|);
  }

  lemma SextetsFit(n: nat)
    ensures Sextets(n) <= EncodedLen(n)
  {
    hide Sextets, EncodedLen;
    Lengths(n);
  }

  lemma ShapeIs(t: seq<byte>, n: nat)
    requires |t| == EncodedLen(n) && Lead(t) == Sextets(n) && forall i :: Sextets(n) <= i < |t| ==> t[i] == PAD
    ensures Shape(t) && |t| % 4 == 0 && DecodedLen(t) == n
  {
    hide Lead, Sextets, EncodedLen;
    Lengths(n);
  }

  lemma EncodedAt(raw: seq<byte>, i: nat)
    requires i < EncodedLen(|raw|) == |Rfc(raw)|
    ensures var c := Rfc(raw)[i];
            && !IsSpace(c)
            && if i < Sextets(|raw|) then Value(c) == Sextet(raw, i) else c == PAD && Value(c) < 0
  {
    hide Rfc, Sextet, EncodedLen, Sextets;
    RfcAt(raw, i);
  }

  lemma Reassembled(a: byte, b: byte, c: byte)
    ensures a / 4 * 4 + (a % 4 * 16 + b / 16) / 16 == a
    ensures (a % 4 * 16 + b / 16) % 16 * 16 + (b % 16 * 4 + c / 64) / 4 == b
    ensures (b % 16 * 4 + c / 64) % 4 * 64 + c % 64 == c
  {
  }

  // Decoding an encoding gives back the data.
  lemma RoundTrip(raw: seq<byte>)
    ensures WellFormed(Strip(Rfc(raw))) && DecodedLen(Strip(Rfc(raw))) == |raw|
    ensures forall j :: 0 <= j < |raw| ==> Octet(Data(Strip(Rfc(raw))), j) == raw[j]
  {
    hide Rfc, Sextet, WellFormed, Strip, Data, Sextets;
    hide Octet, Lead;
    EncodingShape(raw);
    DataLength(Rfc(raw));
    forall j | 0 <= j < |raw|
      ensures Octet(Data(Rfc(raw)), j) == raw[j]
    {
      OctetOf(raw, Data(Rfc(raw)), j);
    }
  }

  // The same of the two programs: what one writes, the other reads back.
  method EncodeDecode(raw: seq<byte>, text: array<byte>, data: array<byte>) returns (len: int, r: Option<int>)
    requires |raw| < 0x2000_0000 && text.Length > EncodedLen(|raw|) && data.Length >= |raw| && text != data
    modifies text, data
    ensures len == EncodedLen(|raw|) && text[..len] == Rfc(raw) && text[len] == 0
    ensures r == Some(|raw|) && data[..|raw|] == raw
  {
    hide Rfc, Strip, Decoded, Data, WellFormed, DecodedLen, Lead, Octet, EncodedLen;
    len := Encode(raw, text);
    assert text[..len] == Rfc(raw);
    NoNull(raw);
    EncodingShape(raw);
    RoundTrip(raw);
    SmallLead(|raw|);
    NoWrap(|raw|);
    r := Decode(text[..len], data);
    DecodedAt(data, Data(Rfc(raw)), raw);
  }

  lemma NoNull(raw: seq<byte>)
    ensures forall i :: 0 <= i < |Rfc(raw)| ==> Rfc(raw)[i] != 0
  {
    hide Rfc, Sextet, EncodedLen;
    RfcTail(raw);
    forall i | 0 <= i < |Rfc(raw)|
      ensures Rfc(raw)[i] != 0
    {
      RfcAt(raw, i);
    }
  }

  lemma SmallLead(n: nat)
    requires n < 0x2000_0000
    ensures Sextets(n) <= MAX_LEAD
  {
  }

  lemma NoWrap(n: nat)
    requires n < 0x2000_0000
    ensures n % 0x2000_0000 == n
  {
  }

  lemma DecodedAt(data: array<byte>, vs: seq<int>, raw: seq<byte>)
    requires Decoded(data, vs) && |raw| <= data.Length && forall j :: 0 <= j < |raw| ==> Octet(vs, j) == raw[j]
    ensures data[..|raw|] == raw
  {
    hide Octet;
  }

  lemma OctetOf(raw: seq<byte>, vs: seq<int>, j: nat)
    requires |vs| == Sextets(|raw|) && (forall k :: 0 <= k < |vs| ==> vs[k] == Sextet(raw, k)) && j < |raw|
    ensures Octet(vs, j) == raw[j]
  {
    hide Sextet, Octet, Sextets;
    Lengths(|raw|);
    var q := j / 3;
    SextetsOf(raw, q);
    OctetsOf(vs, q);
    Reassembled(At(raw, 3 * q), At(raw, 3 * q + 1), At(raw, 3 * q + 2));
    if j % 3 == 0 {
      assert j == 3 * q;
    } else if j % 3 == 1 {
      assert j == 3 * q + 1;
    } else {
      assert j == 3 * q + 2;
    }
  }

  lemma OctetsOf(vs: seq<int>, q: nat)
    ensures Octet(vs, 3 * q) == V(vs, 4 * q) * 4 + V(vs, 4 * q + 1) / 16
    ensures Octet(vs, 3 * q + 1) == V(vs, 4 * q + 1) % 16 * 16 + V(vs, 4 * q + 2) / 4
    ensures Octet(vs, 3 * q + 2) == V(vs, 4 * q + 2) % 4 * 64 + V(vs, 4 * q + 3)
  {
    hide V;
  }

  lemma DataLength(t: seq<byte>)
    ensures |Data(t)| == Lead(t)
  {
  }

  lemma SextetsOf(raw: seq<byte>, q: nat)
    ensures Sextet(raw, 4 * q) == At(raw, 3 * q) / 4
    ensures Sextet(raw, 4 * q + 1) == At(raw, 3 * q) % 4 * 16 + At(raw, 3 * q + 1) / 16
    ensures Sextet(raw, 4 * q + 2) == At(raw, 3 * q + 1) % 16 * 4 + At(raw, 3 * q + 2) / 64
    ensures Sextet(raw, 4 * q + 3) == At(raw, 3 * q + 2) % 64
  {
  }

  // ---- The alphabet -------------------------------------------------------

  // A to Z, a to z, 0 to 9, + and /
  lemma Alphabet(i: int)
    ensures Symbol(0) == 'A' as int && Symbol(25) == 'Z' as int && Symbol(26) == 'a' as int && Symbol(51) == 'z' as int
    ensures Symbol(52) == '0' as int && Symbol(61) == '9' as int && Symbol(62) == '+' as int && Symbol(63) == '/' as int
    ensures 0 <= i < 25 || 26 <= i < 51 || 52 <= i < 61 ==> Symbol(i + 1) == Symbol(i) + 1
  {
  }

  // Three of the test vectors of section 10 of RFC 4648: "f", "fo" and "foo"
  lemma TestVectors()
    ensures Rfc([0x66]) == [0x5a, 0x67, 0x3d, 0x3d]
    ensures Rfc([0x66, 0x6f]) == [0x5a, 0x6d, 0x38, 0x3d]
    ensures Rfc([0x66, 0x6f, 0x6f]) == [0x5a, 0x6d, 0x39, 0x76]
  {
    assert [0x66, 0x6f, 0x6f][3..] == [];
  }

  ghost predicate InAlphabet(c: byte) {
    exists i :: 0 <= i < 64 && Symbol(i) == c
  }

  lemma AlphabetValue(c: byte)
    ensures InAlphabet(c) <==> Value(c) >= 0
  {
    if Value(c) >= 0 {
      assert Symbol(Value(c)) == c;
    }
  }

  // The first n characters are of the alphabet, and the others are '='.
  ghost predicate PaddedAt(t: seq<byte>, n: int) {
    && 0 <= n <= |t|
    && (forall i :: 0 <= i < n ==> InAlphabet(t[i])) && (forall i :: n <= i < |t| ==> t[i] == 0x3d)
  }

  // What is accepted, white space apart: whole groups of four characters of the
  // alphabet, of which the last may end in one or two pads.
  lemma WellFormedMeans(t: seq<byte>)
    ensures WellFormed(t) <==>
              |t| % 4 == 0 && (PaddedAt(t, |t|) || PaddedAt(t, |t| - 1) || PaddedAt(t, |t| - 2))
  {
    hide Symbol, Value, InAlphabet;
    forall c: byte
      ensures InAlphabet(c) <==> Value(c) >= 0
    {
      AlphabetValue(c);
    }
    AlphabetValue(0x3d);
    PadValue();
    if WellFormed(t) {
      assert PaddedAt(t, Lead(t));
    }
  }

  // White space is left out, wherever it is.
  lemma {:induction false} StripConcat(a: seq<byte>, b: seq<byte>)
    ensures Strip(a + b) == Strip(a) + Strip(b)
    decreases |b|
  {
    if b == [] {
      assert a + b == a;
    } else {
      StripConcat(a, b[..|b| - 1]);
      assert (a + b)[..|a + b| - 1] == a + b[..|b| - 1];
    }
  }

  lemma StripOne(c: byte)
    ensures Strip([c]) == if c == 0x20 || 0x09 <= c <= 0x0d then [] else [c]
  {
    assert [c][..0] == [];
  }
}
