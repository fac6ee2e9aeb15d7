/** Port widths: negotiation by bit mask, and the alignments both ends derive from them. */
module Widths {
  import opened Options
  import opened Words

  /** A refined data or address width, in bytes. */
  predicate Span(n: nat) {
    n == 1 || n == 2 || n == 4 || n == 8
  }

  /** An eb_width_t after refinement: one data width and one address width. */
  datatype Port = Port(data: nat, addr: nat)

  type Width = p: Port | Span(p.data) && Span(p.addr) witness Port(1, 1)

  /** Keeps the top bit of a four-bit set of widths. */
  function RefineNibble(x: nat): nat {
    var y := Or(x, x / 2);
    var z := Or(y, y / 4);
    (z + 1) / 2
  }

  /** eb_width_refine on the mask 16 * addr + data. */
  function Refine(width: Byte): nat {
    16 * RefineNibble(width / 16) + RefineNibble(width % 16)
  }

  lemma RefineNibbleValues(x: nat)
    requires x < 16
    ensures RefineNibble(x) ==
            if x == 0 then 0 else if x < 2 then 1 else if x < 4 then 2 else if x < 8 then 4 else 8
  {
    if x < 8 {
      RefineLow(x);
    } else {
      RefineHigh(x);
    }
  }

  lemma RefineLow(x: nat)
    requires x < 8
    ensures RefineNibble(x) == if x == 0 then 0 else if x < 2 then 1 else if x < 4 then 2 else 4
  {
    match x
    case 0 => assert RefineNibble(0) == 0;
    case 1 => assert RefineNibble(1) == 1;
    case 2 => assert RefineNibble(2) == 2;
    case 3 => assert RefineNibble(3) == 2;
    case 4 => assert RefineNibble(4) == 4;
    case 5 => assert RefineNibble(5) == 4;
    case 6 => assert RefineNibble(6) == 4;
    case 7 => assert RefineNibble(7) == 4;
  }

  lemma RefineHigh(x: nat)
    requires 8 <= x < 16
    ensures RefineNibble(x) == 8
  {
    assert Pow2(2) == 4 && Pow2(3) == 8 && Pow2(4) == 16;
    OrRange(x, x / 2, 2);
    var y := Or(x, x / 2);
    hide Or;
    assert 12 <= y < 16 && y / 4 == 3;
    OrThree(y);
  }

  lemma OrThree(y: nat)
    requires 12 <= y < 16
    ensures Or(y, 3) == 15
  {
    assert Or(12, 3) == 15 && Or(13, 3) == 15 && Or(14, 3) == 15 && Or(15, 3) == 15;
  }

  /** Or-ing in the next lower bit sets it. */
  lemma {:induction false} OrRange(x: nat, h: nat, k: nat)
    requires Pow2(k + 1) <= x < Pow2(k + 2) && Pow2(k) <= h < Pow2(k + 1)
    ensures 3 * Pow2(k) <= Or(x, h) < 4 * Pow2(k)
  {
    if k == 0 {
      assert Or(2, 1) == 3 && Or(3, 1) == 3;
    } else {
      OrRange(x / 2, h / 2, k - 1);
    }
  }

  /** Span s is offered by the four-bit mask x. */
  predicate Offers(x: nat, s: nat) {
    Span(s) && And(x, s) == s
  }

  function BitIndex(s: nat): nat {
    if s == 1 then 0 else if s == 2 then 1 else if s == 4 then 2 else 3
  }

  lemma BitValues(x: nat)
    ensures Bit(x, 0) == (x % 2 == 1) && Bit(x, 1) == ((x / 2) % 2 == 1)
    ensures Bit(x, 2) == ((x / 4) % 2 == 1) && Bit(x, 3) == ((x / 8) % 2 == 1)
  {
    BitStep(x, 0);
    BitStep(x, 1);
    BitStep(x / 2, 0);
    BitStep(x, 2);
    BitStep(x / 2, 1);
    BitStep(x / 2 / 2, 0);
    hide Bit;
    assert x / 2 / 2 == x / 4 && x / 4 / 2 == x / 8;
  }

  lemma BitStep(x: nat, i: nat)
    ensures Bit(x, 0) == (x % 2 == 1)
    ensures Bit(x, i + 1) == Bit(x / 2, i)
  {
  }

  lemma Digits(x: nat)
    requires x < 16
    ensures x % 4 - x % 2 == 2 <==> (x / 2) % 2 == 1
    ensures x % 8 - x % 4 == 4 <==> (x / 4) % 2 == 1
    ensures x % 16 - x % 8 == 8 <==> (x / 8) % 2 == 1
  {
  }

  lemma OffersBit(x: nat, s: nat)
    requires x < 16 && Span(s)
    ensures And(x, s) == s <==> Bit(x, BitIndex(s))
  {
    hide And, Bit;
    Pow2Values();
    BitValues(x);
    hide Pow2;
    Digits(x);
    if s == 1 {
      AndMask(x, 1, 0);
    } else if s == 2 {
      AndMask(x, 2, 1);
    } else if s == 4 {
      AndMask(x, 3, 2);
    } else {
      AndMask(x, 4, 3);
    }
  }

  /** Refining picks the widest offer, and picks nothing exactly when nothing is offered. */
  lemma RefineIsWidest(x: nat)
    requires x < 16
    ensures RefineNibble(x) == 0 <==> x == 0
    ensures x != 0 ==> Offers(x, RefineNibble(x))
    ensures forall s: nat | Offers(x, s) :: s <= RefineNibble(x)
  {
    hide RefineNibble, And, Bit;
    RefineNibbleValues(x);
    BitValues(x);
    OffersBit(x, 1);
    OffersBit(x, 2);
    OffersBit(x, 4);
    OffersBit(x, 8);
  }

  lemma OffersBoth(mine: nat, theirs: nat, s: nat)
    requires mine < 16 && theirs < 16 && And(mine, theirs) < 16
    ensures Offers(And(mine, theirs), s) <==> Offers(mine, s) && Offers(theirs, s)
  {
    if Span(s) {
      OffersBit(mine, s);
      OffersBit(theirs, s);
      OffersBit(And(mine, theirs), s);
      BitOfAnd(mine, theirs, BitIndex(s));
    }
  }

  /** Two ends that refine the same intersection agree on a width both offer, and it is the widest such. */
  lemma NegotiationAgrees(mine: nat, theirs: nat)
    requires mine < 16 && theirs < 16
    ensures And(mine, theirs) < 16
    ensures var r := RefineNibble(And(mine, theirs));
            && (r != 0 <==> exists s: nat :: Offers(mine, s) && Offers(theirs, s))
            && (r != 0 ==> Offers(mine, r) && Offers(theirs, r))
            && forall s: nat | Offers(mine, s) && Offers(theirs, s) :: s <= r
  {
    var both := And(mine, theirs);
    assert both < 16 by {
      Pow2Values();
      AndBelow(mine, theirs, 4);
    }
    WidestOfBoth(mine, theirs, both);
  }

  lemma WidestOfBoth(mine: nat, theirs: nat, both: nat)
    requires mine < 16 && theirs < 16 && both < 16 && both == And(mine, theirs)
    ensures var r := RefineNibble(both);
            && (r != 0 <==> exists s: nat :: Offers(mine, s) && Offers(theirs, s))
            && (r != 0 ==> Offers(mine, r) && Offers(theirs, r))
            && forall s: nat | Offers(mine, s) && Offers(theirs, s) :: s <= r
  {
    RefineIsWidest(both);
    forall s: nat
      ensures Offers(both, s) <==> Offers(mine, s) && Offers(theirs, s)
    {
      OffersBoth(mine, theirs, s);
    }
    var r := RefineNibble(both);
    if r != 0 {
      assert Offers(both, r);
    }
  }

  // ---------------------------------------------------------------------------
  // Whole masks: data widths in the low half, address widths in the high half
  // ---------------------------------------------------------------------------

  /** The mask of one port width, as it stands in packet headers. */
  function WidthByte(w: Width): Byte {
    16 * w.addr + w.data
  }

  /** Both halves of the mask offer a width that the port uses. */
  predicate Supports(mask: Byte, w: Width) {
    Offers(mask % 16, w.data) && Offers(mask / 16, w.addr)
  }

  /** eb_width_possible */
  predicate Possible(mask: Byte) {
    mask % 16 != 0 && mask / 16 != 0
  }

  /** What an end uses when it knows both masks; None means it gives up. */
  function Negotiated(theirs: Byte, mine: Byte): (r: Option<Width>)
  {
    AndByte(theirs, mine);
    PossibleRefines(And(theirs, mine));
    var both := And(theirs, mine);
    if Possible(both) then Some(PortOf(Refine(both))) else None
  }

  /** The port width of a refined mask. */
  function PortOf(mask: nat): Width
    requires Span(mask % 16) && Span(mask / 16)
  {
    Port(mask % 16, mask / 16)
  }

  lemma AndByte(x: Byte, y: Byte)
    ensures And(x, y) < 256
    ensures And(x, y) % 16 == And(x % 16, y % 16) && And(x, y) / 16 == And(x / 16, y / 16)
  {
    Pow2Values();
    AndBelow(x, y, 8);
    AndBelow(x % 16, y % 16, 4);
    AndJoin(x / 16, y / 16, x % 16, y % 16);
    hide And, Pow2;
    DivMod(And(x, y), 16, And(x / 16, y / 16), And(x % 16, y % 16));
  }

  /** Masking acts on the halves of a byte separately. */
  lemma AndJoin(a: nat, b: nat, l: nat, m: nat)
    requires l < 16 && m < 16
    ensures And(16 * a + l, 16 * b + m) == 16 * And(a, b) + And(l, m)
  {
    var both := And(a, b);
    hide And;
    assert l / 8 / 2 == 0 && m / 8 / 2 == 0;
    assert And(0, 0) == 0 by {
      AndZero();
    }
    AndJoinStep(a, b, both, l / 8, m / 8);
    assert l / 4 / 2 == l / 8 && m / 4 / 2 == m / 8;
    AndJoinStep(2 * a, 2 * b, 2 * both, l / 4, m / 4);
    assert l / 2 / 2 == l / 4 && m / 2 / 2 == m / 4;
    AndJoinStep(4 * a, 4 * b, 4 * both, l / 2, m / 2);
    AndJoinStep(8 * a, 8 * b, 8 * both, l, m);
  }

  lemma AndJoinStep(t: nat, u: nat, v: nat, l: nat, m: nat)
    requires And(t + l / 2, u + m / 2) == v + And(l / 2, m / 2)
    ensures And(2 * t + l, 2 * u + m) == 2 * v + And(l, m)
  {
    AndSplit(2 * t + l, 2 * u + m);
    AndSplit(l, m);
    hide And;
    HalfOf(t, l);
    HalfOf(u, m);
  }

  lemma AndZero()
    ensures And(0, 0) == 0
  {
  }

  lemma AndSplit(x: nat, y: nat)
    ensures And(x, y) == 2 * And(x / 2, y / 2) + (if x % 2 == 1 && y % 2 == 1 then 1 else 0)
  {
  }

  lemma HalfOf(t: nat, l: nat)
    ensures (2 * t + l) / 2 == t + l / 2 && (2 * t + l) % 2 == l % 2
  {
  }

  lemma {:induction false} AndCommutes(x: nat, y: nat)
    ensures And(x, y) == And(y, x)
  {
    if x > 0 && y > 0 {
      AndCommutes(x / 2, y / 2);
    }
  }

  lemma PossibleRefines(mask: Byte)
    ensures var r := Refine(mask);
            && r % 16 == RefineNibble(mask % 16) && r / 16 == RefineNibble(mask / 16) && r < 256
            && (Possible(mask) <==> Span(r % 16) && Span(r / 16))
            && (Possible(mask) <==> Possible(r))
  {
    RefineNibbleValues(mask % 16);
    RefineNibbleValues(mask / 16);
    hide RefineNibble;
    var d, a := RefineNibble(mask % 16), RefineNibble(mask / 16);
    assert Refine(mask) == 16 * a + d && d <= 8 && a <= 8;
    DivMod(Refine(mask), 16, a, d);
    hide Refine;
  }

  lemma NegotiatedIs(theirs: Byte, mine: Byte)
    ensures var d := RefineNibble(And(mine % 16, theirs % 16));
            var a := RefineNibble(And(mine / 16, theirs / 16));
            && (d == 0 || Span(d)) && (a == 0 || Span(a))
            && Negotiated(theirs, mine) == if d != 0 && a != 0 then Some(Port(d, a)) else None
  {
    AndCommutes(theirs % 16, mine % 16);
    AndCommutes(theirs / 16, mine / 16);
    AndByte(theirs, mine);
    var both := And(theirs, mine);
    PossibleRefines(both);
    RefineNibbleValues(both % 16);
    RefineNibbleValues(both / 16);
    hide And, RefineNibble, Refine;
  }

  /** The two ends of a link, whichever sees which mask first, settle on the same port width, or both on none. They settle
      on none exactly when no width is supported by both; else on the widest data and the widest address both support. */
  lemma NegotiationMeets(mine: Byte, theirs: Byte)
    ensures Negotiated(mine, theirs) == Negotiated(theirs, mine)
    ensures Negotiated(mine, theirs) == None <==> forall w: Width :: !Supports(mine, w) || !Supports(theirs, w)
    ensures Negotiated(mine, theirs).Some? ==>
              var w := Negotiated(mine, theirs).value;
              && Supports(mine, w) && Supports(theirs, w)
              && forall v: Width | Supports(mine, v) && Supports(theirs, v) :: v.data <= w.data && v.addr <= w.addr
  {
    NegotiatedIs(mine, theirs);
    NegotiatedIs(theirs, mine);
    AndCommutes(mine % 16, theirs % 16);
    AndCommutes(mine / 16, theirs / 16);
    NegotiationAgrees(mine % 16, theirs % 16);
    NegotiationAgrees(mine / 16, theirs / 16);
    var d, a := RefineNibble(And(mine % 16, theirs % 16)), RefineNibble(And(mine / 16, theirs / 16));
    hide And, RefineNibble, Refine, Offers, Negotiated;
    if d != 0 && a != 0 {
      assert Supports(mine, Port(d, a)) && Supports(theirs, Port(d, a));
    }
  }

  /** A header that names one port width which the receiver supports is taken at its word. */
  lemma HeaderKeepsWidth(w: Width, own: Byte)
    ensures Supports(own, w) ==> Negotiated(WidthByte(w), own) == Some(w)
    ensures !Supports(own, w) ==> Negotiated(WidthByte(w), own) == None
  {
    AndByte(WidthByte(w), own);
    assert WidthByte(w) % 16 == w.data && WidthByte(w) / 16 == w.addr;
    SpanAnd(w.data, own % 16);
    SpanAnd(w.addr, own / 16);
    PossibleRefines(And(WidthByte(w), own));
    RefineNibbleValues(w.data);
    RefineNibbleValues(w.addr);
    hide And, RefineNibble, Refine;
  }

  /** One bit masked by anything stays or goes. */
  lemma SpanAnd(s: nat, x: nat)
    requires Span(s) && x < 16
    ensures And(s, x) == if Offers(x, s) then s else 0
  {
    AndCommutes(s, x);
    Masked(x);
    hide And;
    DigitValues(x);
  }

  lemma Masked(x: nat)
    ensures x % 2 <= x % 4 <= x % 8 <= x % 16
    ensures And(x, 1) == x % 2 && And(x, 2) == x % 4 - x % 2
    ensures And(x, 4) == x % 8 - x % 4 && And(x, 8) == x % 16 - x % 8
  {
    Pow2Values();
    hide And, Pow2;
    AndMask(x, 1, 0);
    AndMask(x, 2, 1);
    AndMask(x, 3, 2);
    AndMask(x, 4, 3);
  }

  lemma DigitValues(x: nat)
    ensures x % 4 == x % 2 || x % 4 == x % 2 + 2
    ensures x % 8 == x % 4 || x % 8 == x % 4 + 4
    ensures x % 16 == x % 8 || x % 16 == x % 8 + 8
  {
    NextDigit(x, 2);
    NextDigit(x, 4);
    NextDigit(x, 8);
  }

  lemma NextDigit(x: nat, p: nat)
    requires p > 0
    ensures x % (2 * p) == x % p || x % (2 * p) == x % p + p
  {
    var q, r := x / (2 * p), x % (2 * p);
    assert x == (2 * p) * q + r;
    Halves(p, q);
    if r < p {
      DivMod(x, p, 2 * q, r);
    } else {
      DivMod(x, p, 2 * q + 1, r - p);
    }
  }

  lemma Halves(p: nat, q: nat)
    ensures (2 * p) * q == p * (2 * q) && p * (2 * q + 1) == p * (2 * q) + p
  {
  }

  lemma {:induction false} AndBelow(x: nat, y: nat, k: nat)
    requires x < Pow2(k)
    ensures And(x, y) < Pow2(k)
  {
    if k > 0 {
      AndBelow(x / 2, y / 2, k - 1);
    }
  }

  /** Masking acts bit by bit. */
  lemma {:induction false} BitOfAnd(x: nat, y: nat, i: nat)
    ensures Bit(And(x, y), i) == (Bit(x, i) && Bit(y, i))
  {
    AndStep(x, y);
    if i > 0 {
      BitOfAnd(x / 2, y / 2, i - 1);
    }
  }

  lemma AndStep(x: nat, y: nat)
    ensures And(x, y) % 2 == 1 <==> x % 2 == 1 && y % 2 == 1
    ensures And(x, y) / 2 == And(x / 2, y / 2)
  {
  }

  // ---------------------------------------------------------------------------
  // Alignment of words and records on the wire
  // ---------------------------------------------------------------------------

  /** Bytes per word: 2, 4 or 8. */
  function Alignment(w: Width): nat {
    var biggest := Or(w.addr, w.data);
    2 + (if biggest >= 4 then 2 else 0) + (if biggest >= 8 then 4 else 0)
  }

  /** Bytes per record header (and packet header): 4 or 8. */
  function RecordAlignment(w: Width): nat {
    var biggest := Or(w.addr, w.data);
    4 + (if biggest >= 8 then 4 else 0)
  }

  /** A word on the wire is the shortest of 2, 4 and 8 bytes that holds any datum, any address and any 16-bit config
      address. */
  lemma AlignmentFits(w: Width)
    ensures var al := Alignment(w);
            && (al == 2 || al == 4 || al == 8)
            && w.data <= al && w.addr <= al
            && (al > 2 ==> al == w.data || al == w.addr)
            && RecordAlignment(w) == (if al == 8 then 8 else 4)
  {
    var d, a := w.data, w.addr;
    assert Or(1, 1) == 1 && Or(1, 2) == 3 && Or(1, 4) == 5 && Or(1, 8) == 9;
    assert Or(2, 1) == 3 && Or(2, 2) == 2 && Or(2, 4) == 6 && Or(2, 8) == 10;
    assert Or(4, 1) == 5 && Or(4, 2) == 6 && Or(4, 4) == 4 && Or(4, 8) == 12;
    assert Or(8, 1) == 9 && Or(8, 2) == 10 && Or(8, 4) == 12 && Or(8, 8) == 8;
  }
}
