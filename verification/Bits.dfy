/** Bytes and words as bounded naturals, with the C bitwise operators defined bit by bit.
    `BitOf(x, k)` is bit k of x; every operator below is characterised by what it does to that. */
module Bits {

  type byte = x: nat | x < 256
  type half = x: nat | x < 0x1_0000
  type word = x: nat | x < 0x1_0000_0000

  function Pow2(n: nat): (r: nat)
    ensures r >= 1
  {
    if n == 0 then 1 else 2 * Pow2(n - 1)
  }

  predicate BitOf(x: nat, k: nat) {
    if k == 0 then x % 2 == 1 else BitOf(x / 2, k - 1)
  }

  function And(a: nat, b: nat): (r: nat)
    ensures r <= a && r <= b
  {
    if a == 0 || b == 0 then 0
    else 2 * And(a / 2, b / 2) + (if a % 2 == 1 && b % 2 == 1 then 1 else 0)
  }

  function Xor(a: nat, b: nat): nat
    decreases a + b
  {
    if a == 0 then b else if b == 0 then a
    else 2 * Xor(a / 2, b / 2) + (if a % 2 != b % 2 then 1 else 0)
  }

  function Or(a: nat, b: nat): (r: nat)
    decreases a + b
  {
    if a == 0 then b else if b == 0 then a
    else 2 * Or(a / 2, b / 2) + (if a % 2 == 1 || b % 2 == 1 then 1 else 0)
  }

  /** The number whose k-th bit is s[k]. */
  function FromBits(s: seq<bool>): nat {
    if s == [] then 0 else (if s[0] then 1 else 0) + 2 * FromBits(s[1..])
  }

  /** Bytes copied over a memory from position `at`. */
  function Put(mem: seq<byte>, at: nat, bytes: seq<byte>): (r: seq<byte>)
    requires at + |bytes| <= |mem|
    ensures |r| == |mem|
  {
    mem[..at] + bytes + mem[at + |bytes|..]
  }

  /** A copy made byte by byte. */
  lemma {:induction false} PutNext(mem: seq<byte>, at: nat, bytes: seq<byte>, i: nat)
    requires at + |bytes| <= |mem| && i < |bytes|
    ensures Put(mem, at, bytes[..i])[at + i := bytes[i]] == Put(mem, at, bytes[..i + 1])
  {
  }

  /** Two copies one after the other are one copy of both. */
  lemma {:induction false} PutPut(mem: seq<byte>, at: nat, a: seq<byte>, b: seq<byte>)
    requires at + |a| + |b| <= |mem|
    ensures Put(Put(mem, at, a), at + |a|, b) == Put(mem, at, a + b)
  {
  }

  /** Byte lane l of a word, lane 0 the least significant. */
  function Lane(w: word, l: nat): byte
    requires l < 4
  {
    if l == 0 then w % 0x100 else if l == 1 then w / 0x100 % 0x100
    else if l == 2 then w / 0x1_0000 % 0x100 else w / 0x100_0000
  }

  lemma {:induction false} LanesOf(w: word)
    ensures w == Lane(w, 3) * 0x100_0000 + Lane(w, 2) * 0x1_0000 + Lane(w, 1) * 0x100 + Lane(w, 0)
  {
    assert w / 0x100 / 0x100 == w / 0x1_0000 && w / 0x1_0000 / 0x100 == w / 0x100_0000;
  }

  lemma {:induction false} LanesAre(a: byte, b: byte, c: byte, d: byte)
    ensures var w := d * 0x100_0000 + c * 0x1_0000 + b * 0x100 + a;
            w < 0x1_0000_0000 && Lane(w, 0) == a && Lane(w, 1) == b && Lane(w, 2) == c && Lane(w, 3) == d
  {
    var w := d * 0x100_0000 + c * 0x1_0000 + b * 0x100 + a;
    assert w / 0x100 == d * 0x1_0000 + c * 0x100 + b;
    assert w / 0x1_0000 == d * 0x100 + c;
    assert w / 0x100_0000 == d;
  }

  /** Every 1-bit of a is a 1-bit of b. */
  ghost predicate BitsWithin(a: nat, b: nat) {
    forall k: nat :: BitOf(a, k) ==> BitOf(b, k)
  }

  lemma {:induction false} ZeroBits(k: nat)
    ensures !BitOf(0, k)
  {
    if k > 0 { ZeroBits(k - 1); }
  }

  lemma {:induction false} AndBits(a: nat, b: nat, k: nat)
    ensures BitOf(And(a, b), k) == (BitOf(a, k) && BitOf(b, k))
    decreases k
  {
    ZeroBits(k);
    if a != 0 && b != 0 && k > 0 { AndBits(a / 2, b / 2, k - 1); }
  }

  lemma {:induction false} OrBits(a: nat, b: nat, k: nat)
    ensures BitOf(Or(a, b), k) == (BitOf(a, k) || BitOf(b, k))
    decreases k
  {
    ZeroBits(k);
    if a != 0 && b != 0 && k > 0 { OrBits(a / 2, b / 2, k - 1); }
  }

  lemma {:induction false} OrBound(a: nat, b: nat, n: nat)
    requires a < Pow2(n) && b < Pow2(n)
    ensures Or(a, b) < Pow2(n)
    decreases n
  {
    if a != 0 && b != 0 { OrBound(a / 2, b / 2, n - 1); }
  }

  lemma {:induction false} XorBits(a: nat, b: nat, k: nat)
    ensures BitOf(Xor(a, b), k) == (BitOf(a, k) != BitOf(b, k))
    decreases k
  {
    ZeroBits(k);
    if a != 0 && b != 0 && k > 0 { XorBits(a / 2, b / 2, k - 1); }
  }

  lemma {:induction false} FromBitsBits(s: seq<bool>, k: nat)
    ensures BitOf(FromBits(s), k) == (k < |s| && s[k])
  {
    ZeroBits(k);
    if s != [] {
      assert FromBits(s) / 2 == FromBits(s[1..]);
      if k > 0 { FromBitsBits(s[1..], k - 1); }
    }
  }

  /** A number is determined by its bits. */
  lemma {:induction false} EqualBits(a: nat, b: nat)
    requires forall k: nat :: BitOf(a, k) == BitOf(b, k)
    ensures a == b
    decreases a + b
  {
    if a != 0 || b != 0 {
      assert BitOf(a, 0) == BitOf(b, 0);
      forall k: nat ensures BitOf(a / 2, k) == BitOf(b / 2, k) {
        assert BitOf(a, k + 1) == BitOf(b, k + 1);
      }
      EqualBits(a / 2, b / 2);
    }
  }

  /** A value below 2^n has no bit at or above position n. */
  lemma {:induction false} HighBits(a: nat, n: nat, k: nat)
    requires a < Pow2(n) && n <= k
    ensures !BitOf(a, k)
    decreases n
  {
    ZeroBits(k);
    if n > 0 { HighBits(a / 2, n - 1, k - 1); }
  }

  lemma {:induction false} XorBound(a: nat, b: nat, n: nat)
    requires a < Pow2(n) && b < Pow2(n)
    ensures Xor(a, b) < Pow2(n)
    decreases n
  {
    if a != 0 && b != 0 { XorBound(a / 2, b / 2, n - 1); }
  }

  lemma {:induction false} FromBitsBound(s: seq<bool>)
    ensures FromBits(s) < Pow2(|s|)
  {
    if s != [] { FromBitsBound(s[1..]); }
  }

  lemma {:induction false} FromBitsSnoc(s: seq<bool>, b: bool)
    ensures FromBits(s + [b]) == FromBits(s) + (if b then Pow2(|s|) else 0)
  {
    if s == [] {
      assert s + [b] == [b];
    } else {
      assert (s + [b])[1..] == s[1..] + [b];
      FromBitsSnoc(s[1..], b);
    }
  }

  lemma {:induction false} HalfComplement(q: nat, p: nat)
    requires p < 2 * q
    ensures (2 * q - 1 - p) / 2 == q - 1 - p / 2 && (2 * q - 1 - p) % 2 == 1 - p % 2
  {
    var h, b := p / 2, p % 2;
    assert 2 * q - 1 - p == 2 * (q - 1 - h) + (1 - b);
  }

  /** Negation within n bits is subtraction from 2^n - 1. */
  lemma {:induction false} ComplementBits(p: nat, n: nat, k: nat)
    requires p < Pow2(n) && k < n
    ensures BitOf(Pow2(n) - 1 - p, k) == !BitOf(p, k)
    decreases n
  {
    HalfComplement(Pow2(n - 1), p);
    if k > 0 {
      ComplementBits(p / 2, n - 1, k - 1);
    }
  }

  lemma {:induction false} AndOnes(a: nat, n: nat)
    requires a < Pow2(n)
    ensures And(a, Pow2(n) - 1) == a && And(Pow2(n) - 1, a) == a
  {
    if a != 0 {
      assert (Pow2(n) - 1) / 2 == Pow2(n - 1) - 1;
      AndOnes(a / 2, n - 1);
    }
  }

  lemma {:induction false} AndXor(a: nat, b: nat, m: nat)
    ensures And(Xor(a, b), m) == Xor(And(a, m), And(b, m))
  {
    forall k: nat
      ensures BitOf(And(Xor(a, b), m), k) == BitOf(Xor(And(a, m), And(b, m)), k)
    {
      AndBits(Xor(a, b), m, k);
      XorBits(a, b, k);
      XorBits(And(a, m), And(b, m), k);
      AndBits(a, m, k);
      AndBits(b, m, k);
    }
    EqualBits(And(Xor(a, b), m), Xor(And(a, m), And(b, m)));
  }

  /** Or of disjoint fields is addition. */
  lemma {:induction false} OrShifted(a: nat, b: nat, n: nat)
    requires a < Pow2(n)
    ensures Or(a, b * Pow2(n)) == a + b * Pow2(n)
    decreases n
  {
    if a != 0 && b != 0 {
      assert b * Pow2(n) == 2 * (b * Pow2(n - 1));
      OrShifted(a / 2, b, n - 1);
    }
  }

  lemma {:induction false} Pow2Of16()
    ensures Pow2(8) == 0x100 && Pow2(16) == 0x1_0000
  {
    assert Pow2(12) == 16 * Pow2(8) && Pow2(16) == 16 * Pow2(12);
  }

  lemma {:induction false} Pow2Of32()
    ensures Pow2(24) == 0x100_0000 && Pow2(32) == 0x1_0000_0000
  {
    Pow2Of16();
    assert Pow2(20) == 16 * Pow2(16) && Pow2(24) == 16 * Pow2(20);
    assert Pow2(28) == 16 * Pow2(24) && Pow2(32) == 16 * Pow2(28);
  }

  /** Assembling little-endian fields with shifts and "or". */
  lemma {:induction false} OrFields(a: byte, b: byte)
    ensures Or(a, b * 0x100) == a + 0x100 * b
  {
    Pow2Of16();
    OrShifted(a, b, 8);
  }

  lemma {:induction false} OrHighField(a: half, b: byte)
    ensures Or(a, b * 0x1_0000) == a + 0x1_0000 * b
  {
    Pow2Of16();
    OrShifted(a, b, 16);
  }

  lemma {:induction false} AndWithin(a: nat, b: nat)
    ensures BitsWithin(And(a, b), a) && BitsWithin(And(a, b), b)
  {
    forall k: nat ensures BitOf(And(a, b), k) == (BitOf(a, k) && BitOf(b, k)) {
      AndBits(a, b, k);
    }
  }

  lemma {:induction false} ByteXor(a: byte, b: byte)
    ensures Xor(a, b) < 256
  {
    assert Pow2(8) == 256;
    XorBound(a, b, 8);
  }

  lemma {:induction false} ByteOnes(a: byte)
    ensures And(a, 255) == a && And(255, a) == a
  {
    assert Pow2(8) == 256;
    AndOnes(a, 8);
  }

  lemma {:induction false} WordOnes(a: word)
    ensures And(a, 0xffff_ffff) == a && And(0xffff_ffff, a) == a
  {
    Pow2Of32();
    AndOnes(a, 32);
  }
}
