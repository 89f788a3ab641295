/** What the section code is for. The 4096 data bits and the 24 stored code bits are protected together: any single
    flip among them is located, and any two are detected. */
module SectionRepair {
  import opened Bits
  import opened SectionCode

  datatype Verdict = Clean | FlippedBit(p: nat) | FlippedCode(v: bool, k: nat) | Uncorrectable

  predicate SingleBit(x: nat, k: nat) { k < 12 && x == Pow2(k) }

  /** The decoder the code allows: compare the stored halves with those of the data read. */
  ghost function Verdicts(stored0: nat, stored1: nat, found0: nat, found1: nat): Verdict {
    var s0, s1 := Xor(stored0, found0), Xor(stored1, found1);
    if s0 == 0 && s1 == 0 then Clean
    else if Xor(s0, s1) == 0xfff then FlippedBit(s1)
    else if s1 == 0 && exists k :: SingleBit(s0, k) then FlippedCode(false, var k :| SingleBit(s0, k); k)
    else if s0 == 0 && exists k :: SingleBit(s1, k) then FlippedCode(true, var k :| SingleBit(s1, k); k)
    else Uncorrectable
  }

  ghost function Decode(stored0: nat, stored1: nat, e: seq<byte>): Verdict {
    Verdicts(stored0, stored1, Half(e, false), Half(e, true))
  }

  // ----- Syndromes by their bits -----

  /** The stored half u differs from h exactly at the bits in ks. */
  ghost predicate CodeDiffers(u: nat, h: nat, ks: set<nat>) {
    && (forall k :: k in ks ==> k < 12)
    && forall j: nat :: (BitOf(u, j) != BitOf(h, j)) <==> j in ks
  }

  /** Bit j of a syndrome: the parity of the data flips it covers, changed by a flip of the code bit itself. */
  lemma {:induction false} StoredSyndromeBit(d: seq<byte>, e: seq<byte>, flips: set<nat>, u: nat, ks: set<nat>,
                                             v: bool, j: nat)
    requires DifferAt(d, e, flips) && CodeDiffers(u, Half(d, v), ks)
    ensures BitOf(Xor(u, Half(e, v)), j) == ((j < 12 && FlipParity(flips, 8 * |d|, j, v)) != (j in ks))
  {
    XorBits(u, Half(e, v), j);
    XorBits(Half(d, v), Half(e, v), j);
    SyndromeBit(d, e, flips, v, j);
  }

  /** The bits of x are the ones in ks. */
  ghost predicate HasBits(x: nat, ks: set<nat>) { forall j: nat :: BitOf(x, j) <==> j in ks }

  lemma {:induction false} Pow2Bit(k: nat, j: nat)
    ensures BitOf(Pow2(k), j) <==> j == k
  {
    if k == 0 {
      if j > 0 { ZeroBits(j - 1); }
    } else if j > 0 {
      Pow2Bit(k - 1, j - 1);
    }
  }

  lemma {:induction false} NoBits(x: nat)
    ensures HasBits(x, {}) <==> x == 0
  {
    if HasBits(x, {}) {
      forall j: nat ensures BitOf(x, j) == BitOf(0, j) { ZeroBits(j); }
      EqualBits(x, 0);
    } else if x == 0 {
      forall j: nat ensures !BitOf(0, j) { ZeroBits(j); }
    }
  }

  lemma {:induction false} OneBit(x: nat, k: nat)
    ensures HasBits(x, {k}) <==> x == Pow2(k)
  {
    forall j: nat ensures BitOf(Pow2(k), j) <==> j in {k} { Pow2Bit(k, j); }
    if HasBits(x, {k}) { EqualBits(x, Pow2(k)); }
  }

  lemma {:induction false} UniqueBit(j: nat, k: nat)
    requires Pow2(j) == Pow2(k)
    ensures j == k
  {
    Pow2Bit(j, j);
    Pow2Bit(k, j);
  }

  /** A number with two bits is not a single bit, nor 0. */
  lemma {:induction false} TwoBits(x: nat, i: nat, j: nat)
    requires i != j && BitOf(x, i) && BitOf(x, j)
    ensures x != 0 && forall k :: !SingleBit(x, k)
  {
    ZeroBits(i);
    forall k | SingleBit(x, k) ensures false {
      Pow2Bit(k, i);
      Pow2Bit(k, j);
    }
  }

  /** Bits that agree somewhere among the twelve do not add up to 0xfff. */
  lemma {:induction false} AgreeSomewhere(a: nat, b: nat, j: nat)
    requires j < 12 && BitOf(a, j) == BitOf(b, j)
    ensures Xor(a, b) != 0xfff
  {
    Twelve();
    XorBits(a, b, j);
    ComplementBits(0, 12, j);
    ZeroBits(j);
  }

  // ----- The verdicts -----

  /** A section d whose stored code is (u0, u1) and that is read back as e, with these flips in between. */
  ghost predicate Read(d: seq<byte>, e: seq<byte>, flips: set<nat>, u0: nat, ks0: set<nat>, u1: nat, ks1: set<nat>) {
    && |d| == SECTION && DifferAt(d, e, flips) && (forall p :: p in flips ==> p < POSITIONS)
    && CodeDiffers(u0, Half(d, false), ks0) && CodeDiffers(u1, Half(d, true), ks1)
  }

  /** Code flips alone: each syndrome has exactly the flipped bits. */
  lemma {:induction false} CodeOnly(d: seq<byte>, e: seq<byte>, u: nat, ks: set<nat>, v: bool)
    requires DifferAt(d, e, {}) && CodeDiffers(u, Half(d, v), ks)
    ensures HasBits(Xor(u, Half(e, v)), ks)
  {
    forall j: nat ensures BitOf(Xor(u, Half(e, v)), j) <==> j in ks {
      StoredSyndromeBit(d, e, {}, u, ks, v, j);
      NoFlips({}, 8 * |d|, j, v);
    }
  }

  lemma {:induction false} NothingFlipped(d: seq<byte>, e: seq<byte>, u0: nat, u1: nat)
    requires Read(d, e, {}, u0, {}, u1, {})
    ensures Decode(u0, u1, e) == Clean
  {
    CodeOnly(d, e, u0, {}, false);
    CodeOnly(d, e, u1, {}, true);
    NoBits(Xor(u0, Half(e, false)));
    NoBits(Xor(u1, Half(e, true)));
  }

  lemma {:induction false} SameCode(d: seq<byte>, u: nat, v: bool)
    requires CodeDiffers(u, Half(d, v), {})
    ensures u == Half(d, v)
  {
    EqualBits(u, Half(d, v));
  }

  lemma {:induction false} OneDataFlip(d: seq<byte>, e: seq<byte>, p: nat, u0: nat, u1: nat)
    requires Read(d, e, {p}, u0, {}, u1, {})
    ensures Decode(u0, u1, e) == FlippedBit(p)
  {
    assert p in {p};
    SameCode(d, u0, false);
    SameCode(d, u1, true);
    SingleErrorLocated(d, e, p);
    Complements(p);
  }

  lemma {:induction false} Complements(p: nat)
    requires p < POSITIONS
    ensures Xor(0xfff - p, p) == 0xfff
  {
    Twelve();
    forall j: nat ensures BitOf(Xor(0xfff - p, p), j) == BitOf(0xfff, j) {
      XorBits(0xfff - p, p, j);
      ZeroBits(j);
      if j < 12 {
        ComplementBits(p, 12, j);
        ComplementBits(0, 12, j);
      } else {
        HighBits(p, 12, j);
        HighBits(0xfff - p, 12, j);
        HighBits(0xfff, 12, j);
      }
    }
    EqualBits(Xor(0xfff - p, p), 0xfff);
  }

  lemma {:induction false} OneCodeFlip(d: seq<byte>, e: seq<byte>, u0: nat, u1: nat, v: bool, k: nat)
    requires Read(d, e, {}, u0, if v then {} else {k}, u1, if v then {k} else {})
    ensures Decode(u0, u1, e) == FlippedCode(v, k)
  {
    var s0, s1 := Xor(u0, Half(e, false)), Xor(u1, Half(e, true));
    assert k in {k};
    CodeOnly(d, e, u0, if v then {} else {k}, false);
    CodeOnly(d, e, u1, if v then {k} else {}, true);
    NoBits(if v then s0 else s1);
    OneBit(if v then s1 else s0, k);
    var j := if k == 0 then 1 else 0;
    AgreeSomewhere(s0, s1, j);
    Pow2Bit(k, k);
    ZeroBits(k);
    assert SingleBit(Pow2(k), k);
    forall i | SingleBit(Pow2(k), i) ensures i == k { UniqueBit(i, k); }
  }

  lemma {:induction false} TwoDataFlips(d: seq<byte>, e: seq<byte>, p: nat, q: nat, u0: nat, u1: nat)
    requires Read(d, e, {p, q}, u0, {}, u1, {}) && p != q
    ensures Decode(u0, u1, e) == Uncorrectable
  {
    assert p in {p, q} && q in {p, q};
    SameCode(d, u0, false);
    SameCode(d, u1, true);
    DoubleErrorDetected(d, e, p, q);
    AgreeSomewhere(Xor(p, q), Xor(p, q), 0);
  }

  /** Two code flips of the same half. */
  lemma {:induction false} TwoFlipsOneHalf(d: seq<byte>, e: seq<byte>, u0: nat, u1: nat, v: bool, i: nat, k: nat)
    requires Read(d, e, {}, u0, if v then {} else {i, k}, u1, if v then {i, k} else {}) && i != k
    ensures Decode(u0, u1, e) == Uncorrectable
  {
    var s0, s1 := Xor(u0, Half(e, false)), Xor(u1, Half(e, true));
    CodeOnly(d, e, u0, if v then {} else {i, k}, false);
    CodeOnly(d, e, u1, if v then {i, k} else {}, true);
    NoBits(if v then s0 else s1);
    TwoBits(if v then s1 else s0, i, k);
    AgreeSomewhere(s0, s1, Third(i, k));
    forall m ensures !SingleBit(0, m) { }
  }

  /** One of the bits 0, 1, 2 that is neither i nor k. */
  function Third(i: nat, k: nat): (j: nat)
    ensures j < 3 && j != i && j != k
  {
    if i != 0 && k != 0 then 0 else if i != 1 && k != 1 then 1 else 2
  }

  /** One code flip in each half. */
  lemma {:induction false} FlipInEachHalf(d: seq<byte>, e: seq<byte>, u0: nat, u1: nat, i: nat, k: nat)
    requires Read(d, e, {}, u0, {i}, u1, {k})
    ensures Decode(u0, u1, e) == Uncorrectable
  {
    var s0, s1 := Xor(u0, Half(e, false)), Xor(u1, Half(e, true));
    CodeOnly(d, e, u0, {i}, false);
    CodeOnly(d, e, u1, {k}, true);
    assert BitOf(s0, i) && BitOf(s1, k);
    ZeroBits(i);
    ZeroBits(k);
    AgreeSomewhere(s0, s1, Third(i, k));
  }

  /** The bits of the syndromes after one data flip and one code flip. */
  lemma {:induction false} MixedBits(d: seq<byte>, e: seq<byte>, p: nat, u: nat, ks: set<nat>, v: bool, j: nat)
    requires |d| == SECTION && p < POSITIONS && DifferAt(d, e, {p}) && CodeDiffers(u, Half(d, v), ks) && j < 12
    ensures BitOf(Xor(u, Half(e, v)), j) == ((BitOf(p, j) == v) != (j in ks))
  {
    StoredSyndromeBit(d, e, {p}, u, ks, v, j);
    OneFlip(p, POSITIONS, j, v);
  }

  lemma {:induction false} DataAndCodeFlip(d: seq<byte>, e: seq<byte>, p: nat, u0: nat, u1: nat, v: bool, k: nat)
    requires Read(d, e, {p}, u0, if v then {} else {k}, u1, if v then {k} else {})
    ensures Decode(u0, u1, e) == Uncorrectable
  {
    var s0, s1 := Xor(u0, Half(e, false)), Xor(u1, Half(e, true));
    var ks0: set<nat>, ks1: set<nat> := if v then {} else {k}, if v then {k} else {};
    assert p in {p} && k in {k};
    var a := if k == 0 then 1 else 0;
    var b := if k <= 1 then 2 else 1;
    forall j | j in {a, b, k}
      ensures BitOf(s0, j) == (!BitOf(p, j) != (j in ks0)) && BitOf(s1, j) == (BitOf(p, j) != (j in ks1))
    {
      MixedBits(d, e, p, u0, ks0, false, j);
      MixedBits(d, e, p, u1, ks1, true, j);
    }
    AgreeSomewhere(s0, s1, k);
    ZeroBits(a);
    ZeroBits(b);
    assert BitOf(s0, a) != BitOf(s1, a) && BitOf(s0, b) != BitOf(s1, b);
    if s0 == 0 { TwoBits(s1, a, b); }
    if s1 == 0 { TwoBits(s0, a, b); }
  }

  // ----- Any flips -----

  lemma {:induction false} OnlyElement(s: set<nat>) returns (x: nat)
    requires |s| == 1
    ensures s == {x}
  {
    x :| x in s;
    assert |s - {x}| == 0;
  }

  lemma {:induction false} TwoElements(s: set<nat>) returns (x: nat, y: nat)
    requires |s| == 2
    ensures s == {x, y} && x != y
  {
    x :| x in s;
    y := OnlyElement(s - {x});
    assert s == {x} + (s - {x});
  }

  /** The verdict tells the flips: none, the one there is, or that there are two. */
  ghost predicate Tells(verdict: Verdict, flips: set<nat>, ks0: set<nat>, ks1: set<nat>) {
    match verdict
    case Clean => flips == {} && ks0 == {} && ks1 == {}
    case FlippedBit(p) => flips == {p} && ks0 == {} && ks1 == {}
    case FlippedCode(v, k) => flips == {} && (if v then ks0 == {} && ks1 == {k} else ks0 == {k} && ks1 == {})
    case Uncorrectable => |flips| + |ks0| + |ks1| == 2
  }

  /** Single error correct, double error detect over data and code bits: with no flip the section is clean, a
      single flip is located wherever it is, and any two flips are reported. */
  lemma {:induction false} SecDed(d: seq<byte>, e: seq<byte>, flips: set<nat>, u0: nat, ks0: set<nat>,
                                  u1: nat, ks1: set<nat>)
    requires Read(d, e, flips, u0, ks0, u1, ks1) && |flips| + |ks0| + |ks1| <= 2
    ensures Tells(Decode(u0, u1, e), flips, ks0, ks1)
  {
    if |flips| == 2 {
      var p, q := TwoElements(flips);
      TwoDataFlips(d, e, p, q, u0, u1);
    } else if |flips| == 1 {
      var p := OnlyElement(flips);
      if |ks0| == 1 {
        var k := OnlyElement(ks0);
        DataAndCodeFlip(d, e, p, u0, u1, false, k);
      } else if |ks1| == 1 {
        var k := OnlyElement(ks1);
        DataAndCodeFlip(d, e, p, u0, u1, true, k);
      } else {
        OneDataFlip(d, e, p, u0, u1);
      }
    } else {
      assert flips == {};
      CodeFlips(d, e, u0, ks0, u1, ks1);
    }
  }

  lemma {:induction false} CodeFlips(d: seq<byte>, e: seq<byte>, u0: nat, ks0: set<nat>, u1: nat, ks1: set<nat>)
    requires Read(d, e, {}, u0, ks0, u1, ks1) && |ks0| + |ks1| <= 2
    ensures Tells(Decode(u0, u1, e), {}, ks0, ks1)
  {
    if |ks0| == 2 {
      var i, k := TwoElements(ks0);
      TwoFlipsOneHalf(d, e, u0, u1, false, i, k);
    } else if |ks1| == 2 {
      var i, k := TwoElements(ks1);
      TwoFlipsOneHalf(d, e, u0, u1, true, i, k);
    } else if |ks0| == 1 && |ks1| == 1 {
      var i := OnlyElement(ks0);
      var k := OnlyElement(ks1);
      FlipInEachHalf(d, e, u0, u1, i, k);
    } else if |ks0| == 1 {
      var k := OnlyElement(ks0);
      OneCodeFlip(d, e, u0, u1, false, k);
    } else if |ks1| == 1 {
      var k := OnlyElement(ks1);
      OneCodeFlip(d, e, u0, u1, true, k);
    } else {
      NothingFlipped(d, e, u0, u1);
    }
  }
}
