/**
 Machine-word arithmetic shared by the models: powers of two, rounding and
 reduction of a C unsigned integer, bitwise OR on naturals, strings, and set sizes.
 */
module Words {

  type byte = x: int | 0 <= x < 256

  datatype Option<T> = None | Some(value: T)

  // isspace()
  predicate IsSpace(c: byte) {
    c == 0x20 || c == 0x0c || c == 0x0a || c == 0x0d || c == 0x09 || c == 0x0b
  }

  // A string without a terminator in it
  predicate NoNul(s: seq<byte>) {
    forall i :: 0 <= i < |s| ==> s[i] != 0
  }

  function Pow2(k: nat): (p: nat)
    ensures p > 0
  {
    if k == 0 then 1 else 2 * Pow2(k - 1)
  }

  ghost predicate IsPow2(n: int) {
    exists k: nat :: n == Pow2(k)
  }

  lemma OneIsPow2()
    ensures IsPow2(1)
  {
    assert Pow2(0) == 1;
  }

  lemma {:induction false} Pow2Sum(j: nat, k: nat)
    ensures Pow2(j + k) == Pow2(j) * Pow2(k)
  {
    if j > 0 {
      Pow2Sum(j - 1, k);
      calc {
        Pow2(j + k);
        2 * (Pow2(j - 1) * Pow2(k));
        { MulAssoc(2, Pow2(j - 1), Pow2(k)); }
        Pow2(j) * Pow2(k);
      }
    }
  }

  lemma SubsetCard<T>(s: set<T>, t: set<T>)
    requires s <= t
    ensures |s| <= |t|
  {
    assert t == s + (t - s);
    assert |t| == |s| + |t - s|;
  }

  lemma MulAssoc(a: int, b: int, c: int)
    ensures a * (b * c) == (a * b) * c
  {}

  // Of two powers of two, the smaller divides the larger.
  lemma Pow2Divides(m: int, n: int)
    requires IsPow2(m) && IsPow2(n) && m <= n
    ensures n % m == 0
  {
    var j: nat :| m == Pow2(j);
    var k: nat :| n == Pow2(k);
    if j <= k {
      Pow2Sum(k - j, j);
      MultipleMod(Pow2(k - j), m);
    } else {
      Pow2Sum(j - k, k);
      assert Pow2(j - k) >= 2;
      assert m >= 2 * n by {
        MulMono(2, Pow2(j - k), n);
      }
    }
  }

  lemma MulMono(a: int, b: int, c: int)
    requires a <= b && c >= 0
    ensures a * c <= b * c
  {}

  lemma Distribute(a: int, b: int, c: int)
    ensures (a + b) * c == a * c + b * c
  {}

  lemma MultipleMod(q: int, m: int)
    requires m > 0
    ensures (q * m) % m == 0
  {
    DivModUnique(q * m, m, q, 0);
  }

  // Quotient and remainder are determined by the division equation.
  lemma DivModUnique(a: int, m: int, q: int, r: int)
    requires m > 0 && 0 <= r < m && a == q * m + r
    ensures a / m == q && a % m == r
  {
    var q', r' := a / m, a % m;
    assert a == m * q' + r';
    assert (q - q') * m == r' - r;
    if q - q' >= 1 {
      MulMono(1, q - q', m);
      assert false;
    }
    if q - q' <= -1 {
      MulMono(q - q', -1, m);
      assert false;
    }
  }

  // Adding a multiple of the modulus changes nothing.
  lemma ModShift(a: int, k: int, m: int)
    requires m > 0
    ensures (a + k * m) % m == a % m
  {
    DivModUnique(a + k * m, m, a / m + k, a % m);
  }

  // Reducing modulo a multiple of the modulus first changes nothing.
  lemma ModMod(a: int, n: int, m: int)
    requires m > 0 && n > 0 && n % m == 0
    ensures (a % n) % m == a % m
  {
    var q := n / m;
    assert n == m * q;
    assert a % n == a - n * (a / n);
    assert n * (a / n) == (q * (a / n)) * m;
    ModShift(a, -(q * (a / n)), m);
    assert a + (-(q * (a / n))) * m == a % n;
  }

  // Sums may be reduced term by term.
  lemma ModAdd(a: int, b: int, m: int)
    requires m > 0
    ensures (a % m + b) % m == (a + b) % m
  {
    assert a == m * (a / m) + a % m;
    ModShift(a % m + b, a / m, m);
    assert a % m + b + (a / m) * m == a + b;
  }

  lemma ModSub(a: int, b: int, m: int)
    requires m > 0
    ensures (a - b % m) % m == (a - b) % m
  {
    assert b == m * (b / m) + b % m;
    ModShift(a - b, b / m, m);
    assert a - b + (b / m) * m == a - b % m;
  }

  lemma Associative<T>(a: seq<T>, b: seq<T>, c: seq<T>)
    ensures (a + b) + c == a + (b + c)
  {}

  // ---- Shifts -------------------------------------------------------------

  function Shl(x: nat, k: nat): (r: nat)
    ensures r >= x
  {
    MulMono(1, Pow2(k), x);
    x * Pow2(k)
  }

  function Shr(x: nat, k: nat): nat {
    Quotient(x, Pow2(k));
    x / Pow2(k)
  }

  lemma Quotient(a: nat, m: nat)
    requires m > 0
    ensures a / m >= 0
  {
    if a / m <= -1 {
      MulMono(a / m, -1, m);
    }
  }

  lemma ShiftsByEven(x: nat)
    ensures Shl(x, 0) == x && Shl(x, 2) == x * 4 && Shl(x, 4) == x * 16 && Shl(x, 6) == x * 64 && Shl(x, 8) == x * 256
    ensures Shr(x, 0) == x && Shr(x, 2) == x / 4 && Shr(x, 4) == x / 16 && Shr(x, 6) == x / 64 && Shr(x, 8) == x / 256
  {
    assert Pow2(1) == 2 && Pow2(2) == 4 && Pow2(3) == 8 && Pow2(4) == 16;
    assert Pow2(5) == 32 && Pow2(6) == 64 && Pow2(7) == 128 && Pow2(8) == 256;
  }

  // ---- Bitwise OR ---------------------------------------------------------

  function Or(x: nat, y: nat): (r: nat)
    ensures r >= x && r >= y && r <= x + y
  {
    if x == 0 then y
    else if y == 0 then x
    else 2 * Or(x / 2, y / 2) + (if x % 2 == 1 || y % 2 == 1 then 1 else 0)
  }

  // OR of values that have no bit in common is their sum.
  lemma {:induction false} OrDisjoint(x: nat, y: nat, k: nat)
    requires x % Pow2(k) == 0 && y < Pow2(k)
    ensures Or(x, y) == x + y
  {
    if x > 0 && y > 0 {
      var q := x / Pow2(k);
      assert x == q * Pow2(k);
      assert Pow2(k) == 2 * Pow2(k - 1);
      MulAssoc(q, 2, Pow2(k - 1));
      assert x == 2 * (q * Pow2(k - 1));
      MultipleMod(q, Pow2(k - 1));
      OrDisjoint(x / 2, y / 2, k - 1);
    }
  }

  // OR of values of k bits has k bits.
  lemma {:induction false} OrBound(x: nat, y: nat, k: nat)
    requires x < Pow2(k) && y < Pow2(k)
    ensures Or(x, y) < Pow2(k)
  {
    if x != 0 && y != 0 {
      OrBound(x / 2, y / 2, k - 1);
    }
  }

  lemma OrByte(x: byte, y: byte)
    ensures Or(x, y) < 256
  {
    hide Or;
    assert Pow2(1) == 2 && Pow2(2) == 4 && Pow2(3) == 8 && Pow2(4) == 16;
    assert Pow2(5) == 32 && Pow2(6) == 64 && Pow2(7) == 128 && Pow2(8) == 256;
    OrBound(x, y, 8);
  }

  lemma ShrShrinks(x: nat, k: nat)
    ensures Shr(x, k) <= x
  {
    var m := Pow2(k);
    Quotient(x, m);
    MulMono(1, m, x / m);
  }

  // OR with a multiple of 4, 16, 64 or 256
  lemma OrBelow(x: nat, y: nat)
    ensures x % 4 == 0 && y < 4 ==> Or(x, y) == x + y
    ensures x % 16 == 0 && y < 16 ==> Or(x, y) == x + y
    ensures x % 64 == 0 && y < 64 ==> Or(x, y) == x + y
    ensures x % 256 == 0 && y < 256 ==> Or(x, y) == x + y
  {
    hide Or;
    assert Pow2(1) == 2 && Pow2(2) == 4 && Pow2(3) == 8 && Pow2(4) == 16;
    assert Pow2(5) == 32 && Pow2(6) == 64 && Pow2(7) == 128 && Pow2(8) == 256;
    if x % 4 == 0 && y < 4 { OrDisjoint(x, y, 2); }
    if x % 16 == 0 && y < 16 { OrDisjoint(x, y, 4); }
    if x % 64 == 0 && y < 64 { OrDisjoint(x, y, 6); }
    if x % 256 == 0 && y < 256 { OrDisjoint(x, y, 8); }
  }
}
