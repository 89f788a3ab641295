/** The Hamming code the Starlet NAND controller computes over a 512-byte section.
    A data bit sits at position 8*i + b (bit b of byte i), a 12-bit number. */
module SectionCode {
  import opened Bits

  const SECTION := 512
  const POSITIONS := 4096

  predicate DataBit(d: seq<byte>, p: nat)
    requires p < 8 * |d|
  {
    BitOf(d[p / 8], p % 8)
  }

  /** Reference definition: the parity of the data bits at positions below n whose
      position has bit j equal to v. */
  predicate Selected(d: seq<byte>, n: nat, j: nat, v: bool)
    requires n <= 8 * |d|
  {
    n > 0 && Selected(d, n - 1, j, v) != (BitOf(n - 1, j) == v && DataBit(d, n - 1))
  }

  function HalfBits(d: seq<byte>, n: nat, v: bool): seq<bool> {
    seq(n, j requires 0 <= j => Selected(d, 8 * |d|, j, v))
  }

  /** The half a0 (v false) or a1 (v true) of the code, a 12-bit number. */
  function Half(d: seq<byte>, v: bool): nat {
    FromBits(HalfBits(d, 12, v))
  }

  /** Parity of the 1-bits of x. */
  predicate Odd(x: nat) {
    x != 0 && (x % 2 == 1) != Odd(x / 2)
  }

  lemma {:induction false} OddXor(a: nat, b: nat)
    ensures Odd(Xor(a, b)) == (Odd(a) != Odd(b))
    decreases a + b
  {
    if a != 0 && b != 0 { OddXor(a / 2, b / 2); }
  }

  // ----- The computation -----

  method Parity(x0: byte) returns (y: byte)
    ensures y == if Odd(x0) then 1 else 0
  {
    y := 0;
    var x := x0;
    while x != 0
      invariant y < 2 && ((y == 1) != Odd(x)) == Odd(x0)
      decreases x
    {
      y := Xor(y, x % 2);
      x := x / 2;
    }
  }

  function XorByte(a: byte, b: byte): byte {
    ByteXor(a, b); Xor(a, b)
  }

  /** XOR of the bytes below index n whose index has bit j equal to v. */
  function Column(d: seq<byte>, n: nat, j: nat, v: bool): byte
    requires n <= |d|
  {
    if n == 0 then 0
    else if BitOf(n - 1, j) == v then XorByte(Column(d, n - 1, j, v), d[n - 1])
    else Column(d, n - 1, j, v)
  }

  function Index(v: bool): nat { if v then 1 else 0 }

  /** The positions inside a byte whose bit j is v, as a mask. */
  function RowMask(j: nat, v: bool): byte
    requires j < 3
  {
    if v then [0xaa, 0xcc, 0xf0][j] else [0x55, 0x33, 0x0f][j]
  }

  /** Rows 3 to 11 of the table hold the columns of the first n bytes. */
  ghost predicate HoldsColumns(a: array2<byte>, data: seq<byte>, n: nat)
    requires a.Length0 == 12 && a.Length1 == 2 && n <= |data|
    reads a
  {
    forall k: nat, v: bool :: 3 <= k < 12 ==> a[k, Index(v)] == Column(data, n, k - 3, v)
  }

  method ColumnXors(data: seq<byte>, a: array2<byte>)
    requires |data| == SECTION && a.Length0 == 12 && a.Length1 == 2
    requires forall k: nat, w: nat :: k < 12 && w < 2 ==> a[k, w] == 0
    modifies a
    ensures HoldsColumns(a, data, SECTION)
  {
    for i := 0 to SECTION
      invariant HoldsColumns(a, data, i)
    {
      var x := data[i];
      for j := 0 to 9
        invariant forall k: nat, v: bool :: 3 <= k < 12 ==>
          a[k, Index(v)] == Column(data, if k < 3 + j then i + 1 else i, k - 3, v)
      {
        var bit := Index(BitOf(i, j));
        a[3 + j, bit] := XorByte(a[3 + j, bit], x);
      }
    }
  }

  /** Every entry of the table has the parity of the data bits it stands for. */
  ghost predicate HasParities(a: array2<byte>, data: seq<byte>, from: nat)
    requires |data| == SECTION && a.Length0 == 12 && a.Length1 == 2
    reads a
  {
    forall k: nat, v: bool :: from <= k < 12 ==> Odd(a[k, Index(v)]) == Selected(data, POSITIONS, k, v)
  }

  method FoldRows(data: seq<byte>, a: array2<byte>)
    requires |data| == SECTION && a.Length0 == 12 && a.Length1 == 2
    requires HoldsColumns(a, data, SECTION)
    modifies a
    ensures HasParities(a, data, 0)
  {
    forall k: nat, v: bool | 3 <= k < 12
      ensures Odd(a[k, Index(v)]) == Selected(data, POSITIONS, k, v)
    {
      ColumnParity(data, SECTION, k - 3, v);
    }
    var x := XorByte(a[3, 0], a[3, 1]);
    assert x == Xor(Column(data, SECTION, 0, false), Column(data, SECTION, 0, true)) by {
      assert a[3, Index(false)] == Column(data, SECTION, 0, false);
      assert a[3, Index(true)] == Column(data, SECTION, 0, true);
    }
    a[0, 0] := And(x, 0x55);
    a[0, 1] := And(x, 0xaa);
    a[1, 0] := And(x, 0x33);
    a[1, 1] := And(x, 0xcc);
    a[2, 0] := And(x, 0x0f);
    a[2, 1] := And(x, 0xf0);
    forall k: nat, v: bool | k < 3
      ensures Odd(a[k, Index(v)]) == Selected(data, POSITIONS, k, v)
    {
      assert k == 0 || k == 1 || k == 2;
      assert a[k, Index(v)] == And(x, RowMask(k, v));
      RowParity(data, k, v);
    }
  }

  method PackHalves(data: seq<byte>, a: array2<byte>) returns (a0: nat, a1: nat)
    requires |data| == SECTION && a.Length0 == 12 && a.Length1 == 2
    requires forall k: nat, v: bool :: k < 12 ==> a[k, Index(v)] == Index(Selected(data, POSITIONS, k, v))
    ensures a0 == Half(data, false) && a1 == Half(data, true)
  {
    a0, a1 := 0, 0;
    for j := 0 to 12
      invariant a0 == FromBits(HalfBits(data, j, false))
      invariant a1 == FromBits(HalfBits(data, j, true))
    {
      HalfSnoc(data, j, false);
      HalfSnoc(data, j, true);
      assert a[j, Index(false)] == Index(Selected(data, POSITIONS, j, false));
      assert a[j, Index(true)] == Index(Selected(data, POSITIONS, j, true));
      a0 := Or(a0, a[j, 0] * Pow2(j));
      a1 := Or(a1, a[j, 1] * Pow2(j));
    }
  }

  method TakeParities(data: seq<byte>, a: array2<byte>)
    requires |data| == SECTION && a.Length0 == 12 && a.Length1 == 2 && HasParities(a, data, 0)
    modifies a
    ensures forall k: nat, v: bool :: k < 12 ==> a[k, Index(v)] == Index(Selected(data, POSITIONS, k, v))
  {
    for j := 0 to 12
      invariant HasParities(a, data, j)
      invariant forall k: nat, v: bool :: k < j ==> a[k, Index(v)] == Index(Selected(data, POSITIONS, k, v))
    {
      assert Odd(a[j, Index(false)]) == Selected(data, POSITIONS, j, false);
      assert Odd(a[j, Index(true)]) == Selected(data, POSITIONS, j, true);
      a[j, 0] := Parity(a[j, 0]);
      a[j, 1] := Parity(a[j, 1]);
    }
  }

  method CalcEcc(data: seq<byte>) returns (ecc: seq<byte>)
    requires |data| == SECTION
    ensures Half(data, false) < 4096 && Half(data, true) < 4096
    ensures ecc == [Half(data, false) % 256, Half(data, false) / 256,
                    Half(data, true) % 256, Half(data, true) / 256]
  {
    var a := new byte[12, 2]((i, j) => 0);
    ColumnXors(data, a);
    FoldRows(data, a);
    TakeParities(data, a);
    var a0, a1 := PackHalves(data, a);
    HalfBound(data, false);
    HalfBound(data, true);
    ecc := [a0 % 256, a0 / 256, a1 % 256, a1 / 256];
  }

  /** Each shifted bit lands on a position that is still 0, so "or" adds it. */
  lemma {:induction false} HalfSnoc(d: seq<byte>, n: nat, v: bool)
    ensures FromBits(HalfBits(d, n + 1, v))
         == Or(FromBits(HalfBits(d, n, v)), Index(Selected(d, 8 * |d|, n, v)) * Pow2(n))
  {
    var b := Selected(d, 8 * |d|, n, v);
    assert HalfBits(d, n + 1, v) == HalfBits(d, n, v) + [b];
    FromBitsSnoc(HalfBits(d, n, v), b);
    FromBitsBound(HalfBits(d, n, v));
    OrShifted(FromBits(HalfBits(d, n, v)), Index(b), n);
  }

  lemma {:induction false} HalfBound(d: seq<byte>, v: bool)
    ensures Half(d, v) < 4096
  {
    assert Pow2(12) == 4096 by { assert Pow2(8) == 256; }
    FromBitsBound(HalfBits(d, 12, v));
  }

  // ----- The byte-column loop computes the bit-level definition -----

  /** Which bits of byte i the half (j, v) looks at. */
  function Mask(i: nat, j: nat, v: bool): byte {
    if j < 3 then RowMask(j, v) else if BitOf(i, j - 3) == v then 255 else 0
  }

  lemma {:induction false} PositionBit(i: nat, b: nat, j: nat, v: bool)
    requires b < 8
    ensures (BitOf(8 * i + b, j) == v) == BitOf(Mask(i, j, v), b)
  {
    if j < 3 {
      LowPosition(i, b, j);
      assert j == 0 || j == 1 || j == 2;
    } else {
      HighPosition(i, b, j);
      ZeroBits(b);
      assert Pow2(8) == 256;
      ComplementBits(0, 8, b);
      ZeroBits(b);
    }
  }

  lemma {:induction false} Halve(m: nat, b: nat)
    ensures (2 * m + b) / 2 == m + b / 2 && (2 * m + b) % 2 == b % 2
  {
  }

  lemma {:induction false} LowPosition(i: nat, b: nat, j: nat)
    requires b < 8 && j < 3
    ensures BitOf(8 * i + b, j) == BitOf(b, j)
  {
    Halve(4 * i, b);
    Halve(2 * i, b / 2);
    Halve(i, b / 2 / 2);
    if j == 1 {
      assert BitOf(8 * i + b, 1) == BitOf(4 * i + b / 2, 0);
    } else if j == 2 {
      assert BitOf(8 * i + b, 2) == BitOf(4 * i + b / 2, 1) == BitOf(2 * i + b / 2 / 2, 0);
      assert BitOf(b, 2) == BitOf(b / 2, 1) == BitOf(b / 2 / 2, 0);
    }
  }

  lemma {:induction false} HighPosition(i: nat, b: nat, j: nat)
    requires b < 8 && 3 <= j
    ensures BitOf(8 * i + b, j) == BitOf(i, j - 3)
  {
    Halve(4 * i, b);
    Halve(2 * i, b / 2);
    Halve(i, b / 2 / 2);
    assert BitOf(8 * i + b, j) == BitOf(4 * i + b / 2, j - 1)
        == BitOf(2 * i + b / 2 / 2, j - 2) == BitOf(i, j - 3);
  }

  /** Parity of the low n bits of x that m selects. */
  predicate MaskedParity(x: nat, m: nat, n: nat) {
    n > 0 && MaskedParity(x, m, n - 1) != (BitOf(x, n - 1) && BitOf(m, n - 1))
  }

  lemma {:induction false} MaskedParityShift(x: nat, m: nat, n: nat)
    ensures MaskedParity(x, m, n + 1)
         == ((x % 2 == 1 && m % 2 == 1) != MaskedParity(x / 2, m / 2, n))
  {
    if n > 0 { MaskedParityShift(x, m, n - 1); }
  }

  lemma {:induction false} OddMasked(x: nat, m: nat, n: nat)
    requires x < Pow2(n)
    ensures Odd(And(x, m)) == MaskedParity(x, m, n)
    decreases n
  {
    if n > 0 {
      MaskedParityShift(x, m, n - 1);
      OddMasked(x / 2, m / 2, n - 1);
    }
  }

  /** The eight positions of one byte. */
  lemma {:induction false} ByteStep(d: seq<byte>, i: nat, b: nat, j: nat, v: bool)
    requires i < |d| && b <= 8
    ensures Selected(d, 8 * i + b, j, v)
         == (Selected(d, 8 * i, j, v) != MaskedParity(d[i], Mask(i, j, v), b))
  {
    if b > 0 {
      ByteStep(d, i, b - 1, j, v);
      PositionBit(i, b - 1, j, v);
      var p := 8 * i + b - 1;
      assert p / 8 == i && p % 8 == b - 1;
    }
  }

  lemma {:induction false} SelectedByte(d: seq<byte>, i: nat, j: nat, v: bool)
    requires i < |d|
    ensures Selected(d, 8 * i + 8, j, v)
         == (Selected(d, 8 * i, j, v) != Odd(And(d[i], Mask(i, j, v))))
  {
    assert Pow2(8) == 256;
    ByteStep(d, i, 8, j, v);
    OddMasked(d[i], Mask(i, j, v), 8);
  }

  lemma {:induction false} ColumnParity(d: seq<byte>, n: nat, j: nat, v: bool)
    requires n <= |d|
    ensures Odd(Column(d, n, j, v)) == Selected(d, 8 * n, j + 3, v)
  {
    if n > 0 {
      ColumnParity(d, n - 1, j, v);
      SelectedByte(d, n - 1, j + 3, v);
      OddXor(Column(d, n - 1, j, v), d[n - 1]);
      ByteOnes(d[n - 1]);
    }
  }

  lemma {:induction false} RowColumns(d: seq<byte>, n: nat, j: nat, v: bool)
    requires n <= |d| && j < 3
    ensures Odd(And(Xor(Column(d, n, 0, false), Column(d, n, 0, true)), RowMask(j, v)))
         == Selected(d, 8 * n, j, v)
  {
    if n > 0 {
      RowColumns(d, n - 1, j, v);
      SelectedByte(d, n - 1, j, v);
      var c0, c1, m := Column(d, n - 1, 0, false), Column(d, n - 1, 0, true), RowMask(j, v);
      var x: nat := d[n - 1];
      XorRotate(c0, c1, x);
      AndXor(Xor(c0, c1), x, m);
      OddXor(And(Xor(c0, c1), m), And(x, m));
    }
  }

  lemma {:induction false} XorRotate(a: nat, b: nat, x: nat)
    ensures Xor(Xor(a, x), b) == Xor(Xor(a, b), x) == Xor(a, Xor(b, x))
  {
    forall k: nat
      ensures BitOf(Xor(Xor(a, x), b), k) == BitOf(Xor(Xor(a, b), x), k) == BitOf(Xor(a, Xor(b, x)), k)
    {
      XorBits(Xor(a, x), b, k); XorBits(a, x, k);
      XorBits(Xor(a, b), x, k); XorBits(a, b, k);
      XorBits(a, Xor(b, x), k); XorBits(b, x, k);
    }
    EqualBits(Xor(Xor(a, x), b), Xor(Xor(a, b), x));
    EqualBits(Xor(a, Xor(b, x)), Xor(Xor(a, b), x));
  }

  lemma {:induction false} RowParity(d: seq<byte>, j: nat, v: bool)
    requires |d| == SECTION && j < 3
    ensures Odd(And(Xor(Column(d, SECTION, 0, false), Column(d, SECTION, 0, true)), RowMask(j, v)))
         == Selected(d, POSITIONS, j, v)
  {
    RowColumns(d, SECTION, j, v);
  }

  // ----- What the code is for: one error is located, two are detected -----

  lemma {:induction false} HalfBit(d: seq<byte>, v: bool, j: nat)
    ensures BitOf(Half(d, v), j) == (j < 12 && Selected(d, 8 * |d|, j, v))
  {
    FromBitsBits(HalfBits(d, 12, v), j);
  }

  /** d and e disagree exactly at the positions in flips. */
  ghost predicate DifferAt(d: seq<byte>, e: seq<byte>, flips: set<nat>) {
    && |d| == |e|
    && forall p :: 0 <= p < 8 * |d| ==> (DataBit(d, p) != DataBit(e, p) <==> p in flips)
  }

  /** Parity of the flips below n whose bit j is v. */
  ghost predicate FlipParity(flips: set<nat>, n: nat, j: nat, v: bool) {
    n > 0 && FlipParity(flips, n - 1, j, v) != (BitOf(n - 1, j) == v && n - 1 in flips)
  }

  /** The code is linear: the difference of two codes depends on the flipped positions alone. */
  lemma {:induction false} Linear(d: seq<byte>, e: seq<byte>, flips: set<nat>, n: nat, j: nat, v: bool)
    requires DifferAt(d, e, flips) && n <= 8 * |d|
    ensures (Selected(d, n, j, v) != Selected(e, n, j, v)) == FlipParity(flips, n, j, v)
  {
    if n > 0 { Linear(d, e, flips, n - 1, j, v); }
  }

  /** The syndrome of half v: XOR of the two codes. */
  function Syndrome(d: seq<byte>, e: seq<byte>, v: bool): nat {
    Xor(Half(d, v), Half(e, v))
  }

  lemma {:induction false} SyndromeBit(d: seq<byte>, e: seq<byte>, flips: set<nat>, v: bool, j: nat)
    requires DifferAt(d, e, flips)
    ensures BitOf(Syndrome(d, e, v), j) == (j < 12 && FlipParity(flips, 8 * |d|, j, v))
  {
    XorBits(Half(d, v), Half(e, v), j);
    HalfBit(d, v, j);
    HalfBit(e, v, j);
    Linear(d, e, flips, 8 * |d|, j, v);
  }

  lemma {:induction false} OneFlip(p: nat, n: nat, j: nat, v: bool)
    ensures FlipParity({p}, n, j, v) == (p < n && BitOf(p, j) == v)
  {
    if n > 0 { OneFlip(p, n - 1, j, v); }
  }

  lemma {:induction false} TwoFlips(p: nat, q: nat, n: nat, j: nat, v: bool)
    requires p != q
    ensures FlipParity({p, q}, n, j, v) == ((p < n && BitOf(p, j) == v) != (q < n && BitOf(q, j) == v))
  {
    if n > 0 { TwoFlips(p, q, n - 1, j, v); }
  }

  lemma {:induction false} Twelve()
    ensures Pow2(12) == 4096
  {
    assert Pow2(8) == 256;
  }

  /** One flipped bit at position p: the a1 halves differ by p and the a0 halves by 0xfff - p. */
  lemma {:induction false} SingleErrorLocated(d: seq<byte>, e: seq<byte>, p: nat)
    requires |d| == SECTION && p < POSITIONS && DifferAt(d, e, {p})
    ensures Syndrome(d, e, true) == p
    ensures Syndrome(d, e, false) == 0xfff - p
  {
    Twelve();
    forall j: nat
      ensures BitOf(Syndrome(d, e, true), j) == BitOf(p, j)
      ensures BitOf(Syndrome(d, e, false), j) == BitOf(0xfff - p, j)
    {
      SyndromeBit(d, e, {p}, true, j);
      SyndromeBit(d, e, {p}, false, j);
      OneFlip(p, POSITIONS, j, true);
      OneFlip(p, POSITIONS, j, false);
      if j < 12 {
        ComplementBits(p, 12, j);
      } else {
        HighBits(p, 12, j);
        HighBits(0xfff - p, 12, j);
      }
    }
    EqualBits(Syndrome(d, e, true), p);
    EqualBits(Syndrome(d, e, false), 0xfff - p);
  }

  /** Two flipped bits: the halves differ equally, by the XOR of the positions, never by 0. */
  lemma {:induction false} DoubleErrorDetected(d: seq<byte>, e: seq<byte>, p: nat, q: nat)
    requires |d| == SECTION && p < POSITIONS && q < POSITIONS && p != q && DifferAt(d, e, {p, q})
    ensures Syndrome(d, e, true) == Syndrome(d, e, false) == Xor(p, q) != 0
  {
    Twelve();
    forall v: bool, j: nat
      ensures BitOf(Syndrome(d, e, v), j) == BitOf(Xor(p, q), j)
    {
      SyndromeBit(d, e, {p, q}, v, j);
      TwoFlips(p, q, POSITIONS, j, v);
      XorBits(p, q, j);
      if j >= 12 { HighBits(p, 12, j); HighBits(q, 12, j); }
    }
    EqualBits(Syndrome(d, e, true), Xor(p, q));
    EqualBits(Syndrome(d, e, false), Xor(p, q));
    if Xor(p, q) == 0 {
      forall j: nat ensures BitOf(p, j) == BitOf(q, j) {
        XorBits(p, q, j);
        ZeroBits(j);
      }
      EqualBits(p, q);
    }
  }

  lemma {:induction false} NoFlips(flips: set<nat>, n: nat, j: nat, v: bool)
    requires flips == {}
    ensures !FlipParity(flips, n, j, v)
  {
    if n > 0 { NoFlips(flips, n - 1, j, v); }
  }

  // ----- The two halves are complementary exactly when the data has odd parity -----

  predicate DataParity(d: seq<byte>, n: nat)
    requires n <= 8 * |d|
  {
    n > 0 && DataParity(d, n - 1) != DataBit(d, n - 1)
  }

  lemma {:induction false} HalvesCover(d: seq<byte>, n: nat, j: nat)
    requires n <= 8 * |d|
    ensures (Selected(d, n, j, false) != Selected(d, n, j, true)) == DataParity(d, n)
  {
    if n > 0 { HalvesCover(d, n - 1, j); }
  }

  lemma {:induction false} HalvesDiffer(d: seq<byte>)
    ensures Xor(Half(d, false), Half(d, true)) == if DataParity(d, 8 * |d|) then 0xfff else 0
  {
    Twelve();
    var all: nat := if DataParity(d, 8 * |d|) then 0xfff else 0;
    forall j: nat
      ensures BitOf(Xor(Half(d, false), Half(d, true)), j) == BitOf(all, j)
    {
      XorBits(Half(d, false), Half(d, true), j);
      HalfBit(d, false, j);
      HalfBit(d, true, j);
      HalvesCover(d, 8 * |d|, j);
      ZeroBits(j);
      if j < 12 { ComplementBits(0, 12, j); } else { HighBits(0xfff, 12, j); }
    }
    EqualBits(Xor(Half(d, false), Half(d, true)), all);
  }
}
