/** Unsigned words of a fixed width, bit operations on them, and their big-endian byte form. */
module Words {
  import opened Seqs

  type Byte = b: nat | b < 256

  /** One more than the largest eb_address_t, eb_data_t or uint64_t. */
  const WORD: nat := 0x1_0000_0000_0000_0000

  // ---------------------------------------------------------------------------
  // Powers and division
  // ---------------------------------------------------------------------------

  function Pow2(n: nat): (p: nat)
    ensures p > 0
  {
    if n == 0 then 1 else 2 * Pow2(n - 1)
  }

  function Pow256(n: nat): (p: nat)
    ensures p > 0
  {
    if n == 0 then 1 else 256 * Pow256(n - 1)
  }

  lemma {:induction false} Pow2Add(m: nat, n: nat)
    ensures Pow2(m + n) == Pow2(m) * Pow2(n)
  {
    if m > 0 {
      Pow2Add(m - 1, n);
      assert Pow2(m + n) == 2 * Pow2(m - 1 + n);
    }
  }

  lemma Pow2Values()
    ensures Pow2(0) == 1 && Pow2(1) == 2 && Pow2(2) == 4 && Pow2(3) == 8 && Pow2(4) == 16
    ensures Pow2(5) == 32 && Pow2(6) == 64 && Pow2(7) == 128 && Pow2(8) == 256
    ensures Pow2(16) == 0x1_0000 && Pow2(32) == 0x1_0000_0000 && Pow2(64) == WORD
  {
    Pow2Add(16, 16);
    Pow2Add(32, 32);
  }

  lemma Pow256Values()
    ensures Pow256(0) == 1 && Pow256(1) == 256 && Pow256(2) == 0x1_0000 && Pow256(3) == 0x100_0000
    ensures Pow256(4) == 0x1_0000_0000 && Pow256(5) == 0x100_0000_0000 && Pow256(6) == 0x1_0000_0000_0000
    ensures Pow256(7) == 0x100_0000_0000_0000 && Pow256(8) == WORD
  {
  }

  lemma TwoRuns(a: nat, b: nat, al: nat)
    ensures (a + b) * al == a * al + b * al
  {
  }

  lemma ProductAtLeast(d: nat, k: nat)
    requires k > 0
    ensures d * k >= d
  {
    assert d * k == d * (k - 1) + d;
  }

  /** Quotient and remainder are determined by the division equation. */
  lemma DivMod(x: nat, d: nat, q: nat, r: nat)
    requires r < d && x == d * q + r
    ensures x / d == q && x % d == r
  {
    var q', r' := x / d, x % d;
    assert x == d * q' + r' && 0 <= r' < d;
    if q > q' {
      assert d * q == d * q' + d * (q - q');
      ProductAtLeast(d, q - q');
    } else if q < q' {
      assert d * q' == d * q + d * (q' - q);
      ProductAtLeast(d, q' - q);
    }
  }

  /** A remainder modulo b*p splits into the low digit in base b and the rest. */
  lemma ModTimes(x: nat, b: nat, p: nat)
    requires b > 0 && p > 0
    ensures b * p > 0
    ensures x % (b * p) == b * ((x / b) % p) + x % b
  {
    var h := x / b;
    var q, r := h / p, h % p;
    assert h == p * q + r;
    calc {
      x;
      b * h + x % b;
      b * (p * q + r) + x % b;
      b * (p * q) + b * r + x % b;
      (b * p) * q + (b * r + x % b);
    }
    assert b * r + x % b < b * p by {
      assert b * (p - r) >= b by { ProductAtLeast(b, p - r); }
      assert b * (p - r) == b * p - b * r;
    }
    ProductAtLeast(b, p);
    DivMod(x, b * p, q, b * r + x % b);
  }

  lemma ModDouble(x: nat, p: nat)
    requires p > 0
    ensures x % (2 * p) == 2 * ((x / 2) % p) + x % 2
  {
    ModTimes(x, 2, p);
  }

  lemma SmallMod(x: nat, p: nat)
    requires x < p
    ensures x % p == x
  {
    DivMod(x, p, 0, x);
  }

  // ---------------------------------------------------------------------------
  // Bitwise operators
  // ---------------------------------------------------------------------------

  function And(x: nat, y: nat): nat {
    if x == 0 || y == 0 then 0 else 2 * And(x / 2, y / 2) + (if x % 2 == 1 && y % 2 == 1 then 1 else 0)
  }

  function Or(x: nat, y: nat): nat {
    if x == 0 then y
    else if y == 0 then x
    else 2 * Or(x / 2, y / 2) + (if x % 2 == 1 || y % 2 == 1 then 1 else 0)
  }

  /** Masking with bits j..k-1 keeps exactly those bits. */
  lemma {:induction false} AndMask(x: nat, k: nat, j: nat)
    requires j <= k
    ensures Pow2(j) <= Pow2(k)
    ensures x % Pow2(j) <= x % Pow2(k)
    ensures And(x, Pow2(k) - Pow2(j)) == x % Pow2(k) - x % Pow2(j)
  {
    if k > 0 {
      ModDouble(x, Pow2(k - 1));
      if j > 0 {
        AndMask(x / 2, k - 1, j - 1);
        ModDouble(x, Pow2(j - 1));
        assert (Pow2(k) - Pow2(j)) / 2 == Pow2(k - 1) - Pow2(j - 1);
      } else {
        AndMask(x / 2, k - 1, 0);
        assert (Pow2(k) - 1) / 2 == Pow2(k - 1) - 1;
      }
    }
  }

  /** Or-ing bits below j into a multiple of 2^j adds them. */
  lemma {:induction false} OrDisjoint(x: nat, y: nat, j: nat)
    requires x % Pow2(j) == 0 && y < Pow2(j)
    ensures Or(x, y) == x + y
  {
    if j > 0 && x != 0 && y != 0 {
      ModDouble(x, Pow2(j - 1));
      OrDisjoint(x / 2, y / 2, j - 1);
    }
  }

  function Shl(x: nat, n: nat): nat {
    if n == 0 then x else 2 * Shl(x, n - 1)
  }

  function Shr(x: nat, n: nat): nat
    decreases n
  {
    if n == 0 then x else Shr(x / 2, n - 1)
  }

  lemma {:induction false} ShrOfShl(x: nat, n: nat)
    ensures Shr(Shl(x, n), n) == x
  {
    if n > 0 {
      ShrOfShl(x, n - 1);
      assert Shl(x, n) / 2 == Shl(x, n - 1);
    }
  }

  lemma {:induction false} ShlBound(x: nat, k: nat, n: nat)
    requires x < Pow2(k)
    ensures Shl(x, n) < Pow2(k + n)
  {
    if n > 0 {
      ShlBound(x, k, n - 1);
    }
  }

  lemma {:induction false} Pow2Grows(a: nat, b: nat)
    requires a <= b
    ensures Pow2(a) <= Pow2(b)
    ensures a < b ==> Pow2(a) < Pow2(b)
  {
    if a < b {
      Pow2Grows(a, b - 1);
    }
  }

  /** Bit i of v. */
  function Bit(v: nat, i: nat): bool {
    if i == 0 then v % 2 == 1 else Bit(v / 2, i - 1)
  }

  /** Truncation to k bits keeps every bit below k. */
  lemma {:induction false} BitOfTruncated(v: nat, k: nat, i: nat)
    requires i < k
    ensures Bit(v % Pow2(k), i) == Bit(v, i)
  {
    var t := v % Pow2(k);
    assert t == 2 * ((v / 2) % Pow2(k - 1)) + v % 2 by {
      ModDouble(v, Pow2(k - 1));
    }
    assert t % 2 == v % 2 && t / 2 == (v / 2) % Pow2(k - 1);
    if i > 0 {
      BitOfTruncated(v / 2, k - 1, i - 1);
    }
  }

  // ---------------------------------------------------------------------------
  // Big-endian bytes
  // ---------------------------------------------------------------------------

  /** The low n bytes of v, most significant first. */
  function BigEndian(v: nat, n: nat): (s: seq<Byte>)
    ensures |s| == n
  {
    if n == 0 then [] else BigEndian(v / 256, n - 1) + [v % 256]
  }

  /** The number a byte string denotes. */
  function Value(s: seq<Byte>): nat {
    if s == [] then 0 else 256 * Value(s[..|s| - 1]) + s[|s| - 1]
  }

  lemma {:induction false} ValueBound(s: seq<Byte>)
    ensures Value(s) < Pow256(|s|)
  {
    if s != [] {
      ValueBound(s[..|s| - 1]);
    }
  }

  lemma {:induction false} ValueConcat(a: seq<Byte>, b: seq<Byte>)
    ensures Value(a + b) == Value(a) * Pow256(|b|) + Value(b)
  {
    if b == [] {
      assert a + b == a;
    } else {
      var c := b[..|b| - 1];
      assert (a + b)[..|a + b| - 1] == a + c;
      ValueConcat(a, c);
      ShiftedByte(Value(a), Pow256(|c|), Value(c), b[|b| - 1]);
    }
  }

  lemma ShiftedByte(x: nat, p: nat, y: nat, z: nat)
    ensures 256 * (x * p + y) + z == x * (256 * p) + (256 * y + z)
  {
  }

  /** A slice of a number's bytes, by division. */
  lemma ValueSlice(s: seq<Byte>, i: nat, j: nat)
    requires i <= j <= |s|
    ensures Value(s[i..j]) == Value(s) / Pow256(|s| - j) % Pow256(j - i)
  {
    var p, m, q := s[..i], s[i..j], s[j..];
    assert s == (p + m) + q;
    ValueConcat(p + m, q);
    ValueConcat(p, m);
    ValueBound(m);
    ValueBound(q);
    hide Value, Pow256;
    var high := Value(p) * Pow256(|m|) + Value(m);
    Commuted(high, Pow256(|q|));
    DivMod(Value(s), Pow256(|q|), high, Value(q));
    Commuted(Value(p), Pow256(|m|));
    DivMod(high, Pow256(|m|), Value(p), Value(m));
  }

  lemma Commuted(x: nat, y: nat)
    ensures x * y == y * x
  {
  }

  lemma {:induction false} ValueOfBigEndian(v: nat, n: nat)
    ensures Value(BigEndian(v, n)) == v % Pow256(n)
  {
    if n > 0 {
      ValueOfBigEndian(v / 256, n - 1);
      var s := BigEndian(v, n);
      assert s[..|s| - 1] == BigEndian(v / 256, n - 1);
      ModTimes(v, 256, Pow256(n - 1));
    } else {
      assert v % 1 == 0;
    }
  }

  lemma {:induction false} BigEndianOfValue(s: seq<Byte>)
    ensures BigEndian(Value(s), |s|) == s
  {
    if s != [] {
      var t := s[..|s| - 1];
      BigEndianOfValue(t);
      DivMod(Value(s), 256, Value(t), s[|s| - 1]);
      assert s == t + [s[|s| - 1]];
    }
  }

  /** Several words, each in n bytes. */
  function WordBytes(vs: seq<nat>, n: nat): (s: seq<Byte>)
    ensures |s| == |vs| * n
  {
    if vs == [] then [] else BigEndian(vs[0], n) + WordBytes(vs[1..], n)
  }

  /** Reads k words of n bytes each off the front of s. */
  function LoadWords(s: seq<Byte>, k: nat, n: nat): (vs: seq<nat>)
    requires k * n <= |s|
    ensures |vs| == k
  {
    if k == 0 then [] else
      assert k * n == n + (k - 1) * n;
      [Value(s[..n])] + LoadWords(s[n..], k - 1, n)
  }

  lemma {:induction false} LoadWordsOfWords(vs: seq<nat>, n: nat, rest: seq<Byte>)
    requires forall i :: 0 <= i < |vs| ==> vs[i] < Pow256(n)
    ensures LoadWords(WordBytes(vs, n) + rest, |vs|, n) == vs
  {
    if vs != [] {
      ValueOfBigEndian(vs[0], n);
      SmallMod(vs[0], Pow256(n));
      hide BigEndian, Value, Pow256;
      var s, t := WordBytes(vs, n) + rest, WordBytes(vs[1..], n) + rest;
      TwoRuns(1, |vs| - 1, n);
      ConcatAssoc(BigEndian(vs[0], n), WordBytes(vs[1..], n), rest);
      DropConcat(BigEndian(vs[0], n), t);
      LoadWordsOfWords(vs[1..], n, rest);
      hide WordBytes;
      assert LoadWords(s, |vs|, n) == [vs[0]] + vs[1..];
    }
  }

  lemma {:induction false} LoadWordsBound(s: seq<Byte>, k: nat, n: nat)
    requires k * n <= |s|
    ensures forall i :: 0 <= i < k ==> LoadWords(s, k, n)[i] < Pow256(n)
  {
    if k > 0 {
      assert k * n == n + (k - 1) * n;
      ValueBound(s[..n]);
      LoadWordsBound(s[n..], k - 1, n);
    }
  }

  lemma {:induction false} WordsConcat(a: seq<nat>, b: seq<nat>, n: nat)
    ensures WordBytes(a + b, n) == WordBytes(a, n) + WordBytes(b, n)
  {
    if a == [] {
      assert a + b == b;
    } else {
      assert (a + b)[1..] == a[1..] + b;
      WordsConcat(a[1..], b, n);
    }
  }

  // ---------------------------------------------------------------------------
  // Shifts by whole bytes
  // ---------------------------------------------------------------------------

  function ShlBytes(x: nat, n: nat): nat {
    if n == 0 then x else 256 * ShlBytes(x, n - 1)
  }

  function ShrBytes(x: nat, n: nat): nat
    decreases n
  {
    if n == 0 then x else ShrBytes(x / 256, n - 1)
  }

  lemma {:induction false} ShrOfShlBytes(x: nat, n: nat)
    ensures ShrBytes(ShlBytes(x, n), n) == x
  {
    if n > 0 {
      assert ShlBytes(x, n) / 256 == ShlBytes(x, n - 1);
      ShrOfShlBytes(x, n - 1);
    }
  }

  lemma {:induction false} ShlBytesBound(x: nat, k: nat, n: nat)
    requires x < Pow256(k)
    ensures ShlBytes(x, n) < Pow256(k + n)
  {
    if n > 0 {
      ShlBytesBound(x, k, n - 1);
    }
  }

  lemma {:induction false} Pow256IsPow2(n: nat)
    ensures Pow256(n) == Pow2(8 * n)
  {
    if n > 0 {
      Pow256IsPow2(n - 1);
      Pow2Add(8, 8 * n - 8);
      Pow2Values();
    }
  }

  lemma {:induction false} Pow256Grows(a: nat, b: nat)
    requires a <= b
    ensures Pow256(a) <= Pow256(b)
  {
    if a < b {
      Pow256Grows(a, b - 1);
    }
  }
}
