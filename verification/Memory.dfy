/**
 Words in memory, least significant byte first.
 */
module Memory {
  import opened Words

  function Pow256(n: int): int
    decreases n
  {
    if n <= 0 then 1 else 256 * Pow256(n - 1)
  }

  // The n low-order bytes of v, least significant first.
  function WordBytes(v: int, n: int): (s: seq<byte>)
    requires n >= 0
    ensures |s| == n
    decreases n
  {
    if n == 0 then [] else [v % 256] + WordBytes(v / 256, n - 1)
  }

  function LoadWord(m: int -> byte, at: int, n: int): int
    decreases n
  {
    if n <= 0 then 0 else m(at) + 256 * LoadWord(m, at + 1, n - 1)
  }

  lemma {:induction false} LoadStored(m: int -> byte, at: int, v: int, n: int)
    requires 0 <= n && 0 <= v < Pow256(n)
    requires var w := WordBytes(v, n); forall k :: 0 <= k < n ==> m(at + k) == w[k]
    ensures LoadWord(m, at, n) == v
    decreases n
  {
    if n > 0 {
      var w := WordBytes(v / 256, n - 1);
      forall k | 0 <= k < n - 1
        ensures m(at + 1 + k) == w[k]
      {
        assert m(at + (k + 1)) == WordBytes(v, n)[k + 1];
      }
      LoadStored(m, at + 1, v / 256, n - 1);
      assert m(at + 0) == WordBytes(v, n)[0];
    }
  }

  lemma {:induction false} LoadSame(m: int -> byte, m': int -> byte, at: int, n: int)
    requires forall a :: at <= a < at + n ==> m(a) == m'(a)
    ensures LoadWord(m, at, n) == LoadWord(m', at, n)
    decreases n
  {
    if n > 0 {
      LoadSame(m, m', at + 1, n - 1);
    }
  }

  lemma {:induction false} WordSmall(n: int)
    requires n >= 0
    ensures n < Pow256(n)
    decreases n
  {
    if n > 0 { WordSmall(n - 1); }
  }

  // Memory with the n bytes at an address replaced by a word
  function Store(m: int -> byte, at: int, v: int, n: nat): int -> byte {
    var w := WordBytes(v, n);
    (a: int) => if at <= a < at + n then w[a - at] else m(a)
  }

  lemma LoadStore(m: int -> byte, at: int, v: int, n: nat)
    requires 0 <= v < Pow256(n)
    ensures LoadWord(Store(m, at, v, n), at, n) == v
  {
    hide LoadWord;
    LoadStored(Store(m, at, v, n), at, v, n);
  }

  lemma LoadElsewhere(m: int -> byte, at: int, v: int, n: nat, b: int)
    requires b + n <= at || at + n <= b
    ensures LoadWord(Store(m, at, v, n), b, n) == LoadWord(m, b, n)
  {
    hide LoadWord;
    LoadSame(Store(m, at, v, n), m, b, n);
  }
}
