/** Byte-select lines: how a sender marks the bytes of an operation, and how a receiver reads them back. */
module Select {
  import opened Words
  import opened Widths

  /** The selects a sender can produce for a port of the given width. */
  predicate Aligned(data: nat, size: nat, shift: nat) {
    Span(size) && shift % size == 0 && shift + size <= data
  }

  // ---------------------------------------------------------------------------
  // Reference tables
  // ---------------------------------------------------------------------------

  function Ones(size: nat): (r: nat)
    ensures r <= 255
  {
    if size == 1 then 1 else if size == 2 then 3 else if size == 4 then 15 else 255
  }

  function Doubled(x: nat, n: nat): nat {
    if n == 0 then x else if n == 1 then 2 * x else if n == 2 then 4 * x else if n == 3 then 8 * x
    else if n == 4 then 16 * x else if n == 5 then 32 * x else if n == 6 then 64 * x else 128 * x
  }

  /** The select byte for size bytes, shifted by shift bytes. */
  function SelectByte(size: nat, shift: nat): Byte {
    Doubled(Ones(size), shift) % 256
  }

  /** What a receiver makes of a select byte. */
  datatype Lines = Lines(ok: bool, size: nat, shift: nat)

  /** A select marks size bytes at shift, or nothing sensible. */
  function Decode(data: nat, select: Byte): (r: Lines)
    ensures 1 <= r.size <= 8 && r.shift <= 7
  {
    var d := Marks(select);
    if d.ok && d.size <= data && d.shift < data then d else Lines(false, 1, 0)
  }

  function Marks(select: Byte): (r: Lines)
    ensures 1 <= r.size <= 8 && r.shift <= 7
  {
    if select == 1 then Lines(true, 1, 0) else if select == 2 then Lines(true, 1, 1)
    else if select == 4 then Lines(true, 1, 2) else if select == 8 then Lines(true, 1, 3)
    else if select == 16 then Lines(true, 1, 4) else if select == 32 then Lines(true, 1, 5)
    else if select == 64 then Lines(true, 1, 6) else if select == 128 then Lines(true, 1, 7)
    else if select == 3 then Lines(true, 2, 0) else if select == 12 then Lines(true, 2, 2)
    else if select == 48 then Lines(true, 2, 4) else if select == 192 then Lines(true, 2, 6)
    else if select == 15 then Lines(true, 4, 0) else if select == 240 then Lines(true, 4, 4)
    else if select == 255 then Lines(true, 8, 0) else Lines(false, 1, 0)
  }

  /** The receiver recovers the size and shift of every select a sender makes. */
  lemma DecodeOfSelect(data: nat, size: nat, shift: nat)
    requires Span(data) && Aligned(data, size, shift)
    ensures Decode(data, SelectByte(size, shift)) == Lines(true, size, shift)
  {
  }

  /** It accepts no other select. */
  lemma DecodedIsSelect(data: nat, select: Byte)
    requires Span(data) && Decode(data, select).ok
    ensures var d := Decode(data, select);
            Aligned(data, d.size, d.shift) && select == SelectByte(d.size, d.shift)
  {
  }

  // ---------------------------------------------------------------------------
  // What the code computes
  // ---------------------------------------------------------------------------

  /** The sender's shifts. */
  function MakeSelect(size: nat, shift: nat): Byte
    requires size <= 8
  {
    Shl(Shr(0xFF, 8 - size), shift) % 256
  }

  /** Position of the single set bit of x, by table lookup on a multiplicative hash. */
  function Log2(x: nat): (r: nat)
    ensures r <= 7
  {
    var i := (x * 0x17) % 256 / 32;
    if i == 0 then 0 else if i == 1 then 1 else if i == 2 then 2 else if i == 3 then 4
    else if i == 4 then 7 else if i == 5 then 3 else if i == 6 then 6 else 5
  }

  /** The receiver's bit tricks, before it looks at the port width. */
  function Scan(select: Byte): (r: Lines)
    ensures 1 <= r.size <= 8 && r.shift <= 7
  {
    var shift := Log2(And(select, (256 - select) % 256));
    var bits := Shr(select, shift);
    var widths := Log2(bits / 2 + 1);
    var width := widths + 1;
    Lines(select != 0 && And(bits, bits + 1) == 0 && And(width, widths) == 0 && And(shift, widths) == 0,
          width, shift)
  }

  // ---------------------------------------------------------------------------
  // Why the tricks work
  // ---------------------------------------------------------------------------

  lemma {:induction false} Complement(y: nat, k: nat)
    requires y < Pow2(k)
    ensures And(y, Pow2(k) - 1 - y) == 0
  {
    if k > 0 {
      Complement(y / 2, k - 1);
      assert (Pow2(k) - 1 - y) / 2 == Pow2(k - 1) - 1 - y / 2;
    }
  }

  /** x & -x isolates the lowest set bit. */
  lemma {:induction false} LowestBit(x: nat, n: nat, j: nat)
    requires x % 2 == 1 && Shl(x, j) < Pow2(n)
    ensures And(Shl(x, j), Pow2(n) - Shl(x, j)) == Pow2(j)
    decreases j
  {
    if j == 0 {
      Complement(x / 2, n - 1);
      assert (Pow2(n) - x) / 2 == Pow2(n - 1) - 1 - x / 2;
    } else {
      assert Shl(x, j) > 0 by { ShlPositive(x, j); }
      assert n > 0;
      LowestBit(x, n - 1, j - 1);
      assert (Pow2(n) - Shl(x, j)) / 2 == Pow2(n - 1) - Shl(x, j - 1);
    }
  }

  lemma {:induction false} ShlPositive(x: nat, n: nat)
    requires x > 0
    ensures Shl(x, n) > 0
  {
    if n > 0 {
      ShlPositive(x, n - 1);
    }
  }

  /** b & (b + 1) vanishes exactly on blocks of ones. */
  lemma {:induction false} BlockOfOnes(k: nat)
    ensures And(Pow2(k) - 1, Pow2(k)) == 0
  {
    if k > 0 {
      BlockOfOnes(k - 1);
      assert (Pow2(k) - 1) / 2 == Pow2(k - 1) - 1;
    }
  }

  lemma {:induction false} OnlyBlocksOfOnes(b: nat) returns (k: nat)
    requires And(b, b + 1) == 0
    ensures b == Pow2(k) - 1
  {
    k := 0;
    if b % 2 == 1 {
      assert (b + 1) / 2 == b / 2 + 1;
      k := OnlyBlocksOfOnes(b / 2);
      k := k + 1;
    } else if b > 0 {
      assert (b + 1) / 2 == b / 2;
      AndSelf(b / 2);
      assert false;
    }
  }

  lemma {:induction false} AndSelf(x: nat)
    ensures And(x, x) == x
  {
    if x > 0 {
      AndSelf(x / 2);
    }
  }

  lemma {:induction false} OddPart(x: nat) returns (o: nat, j: nat)
    requires x > 0
    ensures o % 2 == 1 && x == Shl(o, j)
  {
    if x % 2 == 1 {
      o, j := x, 0;
    } else {
      o, j := OddPart(x / 2);
      j := j + 1;
    }
  }

  lemma Log2Values(k: nat)
    requires k < 8
    ensures Log2(Pow2(k)) == k
  {
    match k
    case 0 => assert Log2(1) == 0;
    case 1 => assert Pow2(1) == 2;
    case 2 => assert Pow2(2) == 4;
    case 3 => assert Pow2(3) == 8;
    case 4 => assert Pow2(4) == 16;
    case 5 => assert Pow2(5) == 32;
    case 6 => assert Pow2(6) == 64;
    case 7 => assert Pow2(7) == 128;
  }

  /** A power of two, and an aligned shift, pass the remaining tests. */
  lemma SizeTests(size: nat, shift: nat)
    requires 1 <= size <= 8
    ensures And(size, size - 1) == 0 <==> Span(size)
    ensures Span(size) ==> And(shift, size - 1) == shift % size
  {
    if Span(size) {
      var k := BitIndex(size);
      assert Pow2(k) == size by { Pow2Values(); }
      AndMask(shift, k, 0);
      AndMask(size, k, 0);
      assert size % size == 0;
    } else {
      match size
      case 3 => assert And(3, 2) == 2;
      case 5 => assert And(5, 4) == 4;
      case 6 => assert And(6, 5) == 4;
      case 7 => assert And(7, 6) == 6;
    }
  }

  /** Scan step by step. */
  lemma ScanSteps(select: Byte, bits: nat, widths: nat, shift: nat)
    requires select > 0 && Log2(And(select, 256 - select)) == shift
    requires Shr(select, shift) == bits && Log2(bits / 2 + 1) == widths
    ensures Scan(select) == Lines(And(bits, bits + 1) == 0 && And(widths + 1, widths) == 0 && And(shift, widths) == 0,
                                  widths + 1, shift)
  {
    hide And, Shr, Log2;
    assert (256 - select) % 256 == 256 - select;
  }

  /** What Scan finds in a block of k ones shifted by j. */
  lemma ScanOfBlock(select: Byte, k: nat, j: nat)
    requires k > 0 && select == Shl(Pow2(k) - 1, j)
    ensures k <= 8 && j <= 7
    ensures Scan(select) == Lines(Span(k) && j % k == 0, k, j)
  {
    var ones := Pow2(k) - 1;
    assert ones % 2 == 1 && ones / 2 + 1 == Pow2(k - 1);
    assert Pow2(8) == 256 by { Pow2Values(); }
    BlockBelow(ones, k, j);
    ShlPositive(ones, j);
    assert Log2(And(select, 256 - select)) == j by {
      LowestBit(ones, 8, j);
      Log2Values(j);
    }
    ShrOfShl(ones, j);
    assert Log2(ones / 2 + 1) == k - 1 by { Log2Values(k - 1); }
    ScanSteps(select, ones, k - 1, j);
    BlockOfOnes(k);
    SizeTests(k, j);
  }

  lemma BlockBelow(ones: nat, k: nat, j: nat)
    requires k > 0 && ones == Pow2(k) - 1 && Shl(ones, j) < Pow2(8)
    ensures k + j <= 8
  {
    ShlAtLeast(k, j);
    if k + j > 8 {
      Pow2Grows(8, k + j - 1);
    }
  }

  lemma {:induction false} ShlAtLeast(k: nat, j: nat)
    requires k > 0
    ensures Shl(Pow2(k) - 1, j) >= Pow2(k + j - 1)
  {
    if j > 0 {
      ShlAtLeast(k, j - 1);
    } else {
      assert Pow2(k) == 2 * Pow2(k - 1);
    }
  }

  lemma {:induction false} ShrOfOnes(n: nat, m: nat)
    requires m <= n
    ensures Shr(Pow2(n) - 1, m) == Pow2(n - m) - 1
  {
    if m > 0 {
      assert (Pow2(n) - 1) / 2 == Pow2(n - 1) - 1;
      ShrOfOnes(n - 1, m - 1);
    }
  }

  lemma ShlIsDoubled(x: nat, n: nat)
    requires n <= 7
    ensures Shl(x, n) == Doubled(x, n)
  {
    assert Shl(x, 1) == 2 * x && Shl(x, 2) == 4 * x;
    assert Shl(x, 3) == 8 * x && Shl(x, 4) == 16 * x;
    assert Shl(x, 5) == 32 * x && Shl(x, 6) == 64 * x && Shl(x, 7) == 128 * x;
  }

  lemma BlockIsSelect(size: nat, shift: nat)
    requires Span(size) && size + shift <= 8
    ensures Shl(Pow2(size) - 1, shift) == SelectByte(size, shift)
  {
    assert Pow2(size) - 1 == Ones(size) && Pow2(8) == 256 by { Pow2Values(); }
    hide Ones, Doubled;
    ShlIsDoubled(Ones(size), shift);
    ShlBound(Ones(size), size, shift);
    Pow2Grows(size + shift, 8);
  }

  /** The sender's shifts produce the table. */
  lemma MakeSelectIsTable(size: nat, shift: nat)
    requires Span(size) && size + shift <= 8
    ensures MakeSelect(size, shift) == SelectByte(size, shift)
  {
    assert Pow2(8) == 256 by { Pow2Values(); }
    ShrOfOnes(8, 8 - size);
    ShlBound(Pow2(size) - 1, size, shift);
    Pow2Grows(size + shift, 8);
    BlockIsSelect(size, shift);
  }

  lemma ScannedBlock(select: Byte) returns (k: nat, j: nat)
    requires Scan(select).ok
    ensures k > 0 && select == Shl(Pow2(k) - 1, j)
  {
    var o: nat;
    o, j := OddPart(select);
    assert Pow2(8) == 256 by { Pow2Values(); }
    ShlPositive(o, j);
    assert Log2(And(select, 256 - select)) == j by {
      LowestBit(o, 8, j);
      ShiftBelow(o, j);
      Log2Values(j);
    }
    ShrOfShl(o, j);
    ScanSteps(select, o, Log2(o / 2 + 1), j);
    k := OnlyBlocksOfOnes(o);
  }

  lemma {:induction false} ShiftBelow(o: nat, j: nat)
    requires o > 0 && Shl(o, j) < Pow2(8)
    ensures j < 8
  {
    if j >= 8 {
      ShlGrows(o, j);
      Pow2Grows(8, j);
    }
  }

  lemma {:induction false} ShlGrows(o: nat, j: nat)
    requires o > 0
    ensures Shl(o, j) >= Pow2(j)
  {
    if j > 0 {
      ShlGrows(o, j - 1);
    }
  }

  /** The receiver's bit tricks accept exactly the table's selects, with the table's size and shift. */
  lemma ScanIsMarks(select: Byte)
    ensures Scan(select).ok <==> Marks(select).ok
    ensures Scan(select).ok ==> Scan(select) == Marks(select)
  {
    if Scan(select).ok {
      var k, j := ScannedBlock(select);
      ScanOfBlock(select, k, j);
      assert Pow2(8) == 256 by { Pow2Values(); }
      BlockBelow(Pow2(k) - 1, k, j);
      BlockIsSelect(k, j);
      DecodeOfSelect(8, k, j);
    }
    var d := Marks(select);
    if d.ok {
      DecodedIsSelect(8, select);
      BlockIsSelect(d.size, d.shift);
      ScanOfBlock(select, d.size, d.shift);
    }
  }

  /** The receiver's verdict for its own port, as the code computes it. */
  lemma ScanIsDecode(data: nat, select: Byte)
    ensures var s, d := Scan(select), Decode(data, select);
            && (d.ok <==> s.ok && s.size <= data && s.shift < data)
            && (d.ok ==> s == d)
  {
    ScanIsMarks(select);
  }
}
