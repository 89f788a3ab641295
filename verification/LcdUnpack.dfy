/** Unpacking pixels of 1 to 32 bits from the words of a frame buffer, for a rectangle of the screen. */
module LcdUnpack {
  import opened Bits
  import opened Arith

  /** lineOffset pixels separate the lines; rtl reverses the order of pixels in a word; swap reverses
      the bytes of each word first. */
  datatype Lcd = Lcd(width: int, height: int, depth: nat, lineOffset: nat, rtl: bool, swap: bool) {
    predicate DepthOk() { depth in {1, 2, 4, 8, 16, 32} }
    function LineWidth(): int { width + lineOffset }
  }

  datatype Rect = Rect(x: int, y: int, w: int, h: int)

  predicate Accepted(l: Lcd, r: Rect) {
    && l.DepthOk()
    && l.width > 0 && r.x >= 0 && r.w > 0 && r.x + r.w <= l.width
    && l.height > 0 && r.y >= 0 && r.h > 0 && r.y + r.h <= l.height
  }

  // ----- The field of a word that one pixel occupies -----

  function Swapped(l: Lcd, w: word): word {
    if l.swap then
      var b0: nat, b1: nat, b2: nat, b3: nat := Lane(w, 0), Lane(w, 1), Lane(w, 2), Lane(w, 3);
      b0 * 0x100_0000 + b1 * 0x1_0000 + b2 * 0x100 + b3
    else w
  }

  /** x >> s */
  function ShiftRight(x: nat, s: nat): nat { if s == 0 then x else ShiftRight(x / 2, s - 1) }

  /** x & ((1 << d) - 1) */
  function LowBits(x: nat, d: nat): nat { if d == 0 then 0 else 2 * LowBits(x / 2, d - 1) + x % 2 }

  /** The pixel that starts k bits into a byte. */
  function InByte(l: Lcd, color: byte, k: nat): nat
    requires k + l.depth <= 8
  {
    LowBits(ShiftRight(color, if l.rtl then k else 8 - (k + l.depth)), l.depth)
  }

  /** The pixel that starts k bits into byte i of a word. */
  function Field(l: Lcd, block: word, i: nat, k: nat): nat
    requires l.DepthOk() && i < 4 && (l.depth < 16 ==> k + l.depth <= 8)
  {
    if l.depth < 16 then InByte(l, Lane(block, if l.rtl then 3 - i else i), k)
    else if l.depth == 16 then if (i == 0) == !l.rtl then block % 0x1_0000 else block / 0x1_0000
    else block
  }

  /** Where the bits of that pixel lie in the word: bit t of the pixel is bit Low + t of the word. */
  function Low(l: Lcd, i: nat, k: nat): int
    requires i < 4
  {
    if l.depth < 16 then if l.rtl then 8 * (3 - i) + k else 8 * i + 8 - k - l.depth
    else if l.depth == 16 then if l.rtl then 16 - 8 * i else 8 * i
    else 0
  }

  /** Where a bit of the swapped word lies in the word as stored. */
  function Stored(l: Lcd, p: nat): nat {
    if l.swap && p < 32 then 8 * (3 - p / 8) + p % 8 else p
  }

  lemma {:induction false} ShiftMaskAre(x: nat, s: nat)
    ensures ShiftRight(x, s) == x / Pow2(s) && LowBits(x, s) == x % Pow2(s)
  {
    if s > 0 {
      HalfOfQuotient(x, Pow2(s - 1));
      ShiftMaskAre(x / 2, s - 1);
    }
  }

  lemma {:induction false} ShiftBits(x: nat, s: nat, t: nat)
    ensures BitOf(ShiftRight(x, s), t) == BitOf(x, s + t)
  {
    if s > 0 { ShiftBits(x / 2, s - 1, t); }
  }

  lemma {:induction false} MaskBits(x: nat, d: nat, t: nat)
    ensures BitOf(LowBits(x, d), t) == (t < d && BitOf(x, t))
    decreases d
  {
    if d == 0 {
      ZeroBits(t);
    } else if t > 0 {
      MaskBits(x / 2, d - 1, t - 1);
    }
  }

  lemma {:induction false} LaneBits(w: word, i: nat, t: nat)
    requires i < 4
    ensures BitOf(Lane(w, i), t) == (t < 8 && BitOf(w, 8 * i + t))
  {
    Pow2Of16();
    Pow2Of32();
    ShiftBits(w, 8 * i, t);
    MaskBits(ShiftRight(w, 8 * i), 8, t);
    ShiftMaskAre(w, 8 * i);
    ShiftMaskAre(ShiftRight(w, 8 * i), 8);
    assert i == 3 ==> w / 0x100_0000 % 0x100 == w / 0x100_0000;
    assert i == 0 ==> 8 * i == 0;
    assert Pow2(0) == 1;
  }

  lemma {:induction false} ShiftMaskBits(x: nat, s: nat, d: nat, t: nat)
    ensures BitOf(LowBits(ShiftRight(x, s), d), t) == (t < d && BitOf(x, s + t))
  {
    ShiftBits(x, s, t);
    MaskBits(ShiftRight(x, s), d, t);
  }

  /** The bits of a pixel are consecutive bits of the word. */
  lemma {:induction false} FieldBits(l: Lcd, block: word, i: nat, k: nat, t: nat)
    requires l.DepthOk() && i < 4 && (l.depth < 16 ==> k + l.depth <= 8) && (l.depth == 16 ==> i % 2 == 0)
    ensures 0 <= Low(l, i, k) <= 32 - l.depth
    ensures BitOf(Field(l, block, i, k), t) == (t < l.depth && BitOf(block, Low(l, i, k) + t))
  {
    if l.depth < 16 {
      var lane := if l.rtl then 3 - i else i;
      var shift := if l.rtl then k else 8 - (k + l.depth);
      ShiftMaskBits(Lane(block, lane), shift, l.depth, t);
      LaneBits(block, lane, shift + t);
    } else if l.depth == 16 {
      Pow2Of16();
      Pow2Of32();
      MaskBits(block, 16, t);
      ShiftBits(block, 16, t);
      ShiftMaskAre(block, 16);
      HighBitsClear(block, 16 + t);
    } else {
      HighBitsClear(block, t);
    }
  }

  lemma {:induction false} HighBitsClear(block: word, k: nat)
    ensures k >= 32 ==> !BitOf(block, k)
  {
    Pow2Of16();
    Pow2Of32();
    if k >= 32 { HighBits(block, 32, k); }
  }

  /** Swapping reverses the bytes and keeps the order of bits within them. */
  lemma {:induction false} SwappedBits(l: Lcd, w: word, p: nat)
    requires p < 32
    ensures Stored(l, p) < 32 && BitOf(Swapped(l, w), p) == BitOf(w, Stored(l, p))
  {
    if l.swap {
      var b0: nat, b1: nat, b2: nat, b3: nat := Lane(w, 0), Lane(w, 1), Lane(w, 2), Lane(w, 3);
      LanesAre(b3, b2, b1, b0);
      LaneBits(Swapped(l, w), p / 8, p % 8);
      LaneBits(w, 3 - p / 8, p % 8);
    }
  }

  // ----- Pixels by number -----

  /** The bit address of a pixel: its number times the depth. */
  function Bit(d: nat, n: nat): nat { if n == 0 then 0 else Bit(d, n - 1) + d }

  lemma {:induction false} BitIsProduct(d: nat, n: nat)
    ensures Bit(d, n) == n * d
  {
    if n > 0 { BitIsProduct(d, n - 1); }
  }

  lemma {:induction false} Whole(d: nat, n: int, q: int)
    requires d > 0 && q == d * n
    ensures q % d == 0
  {
    assert q == d * n + 0;
    var m, r := q / d, q % d;
    assert q == d * m + r && r == d * (n - m);
    if n > m { MulStep(d, 0, n - m); } else if n < m { MulStep(d, 0, m - n); }
  }

  lemma {:induction false} Pairs(n: int, q: int)
    requires q == 2 * n
    ensures q % 8 <= 6
  {
    assert q % 8 == 2 * (n - 4 * (q / 8));
  }

  lemma {:induction false} Nibbles(n: int, q: int)
    requires q == 4 * n
    ensures q % 8 <= 4
  {
    assert q % 8 == 4 * (n - 2 * (q / 8));
  }

  lemma {:induction false} Aligned(d: nat, n: nat, q: nat)
    requires match d case 1 => q == n case 2 => q == 2 * n case 4 => q == 4 * n case 8 => q == 8 * n
                    case 16 => q == 16 * n case 32 => q == 32 * n case _ => false
    ensures d < 16 ==> q % 8 + d <= 8
    ensures d == 16 ==> q % 16 == 0
    ensures d == 32 ==> q % 32 == 0
  {
    match d {
      case 2 => Pairs(n, q);
      case 4 => Nibbles(n, q);
      case 8 => Whole(8, n, q);
      case 16 => Whole(16, n, q);
      case 32 => Whole(32, n, q);
      case _ =>
    }
  }

  /** A pixel never straddles two bytes, or two words. */
  lemma {:induction false} PixelFits(l: Lcd, n: nat)
    requires l.DepthOk()
    ensures l.depth < 16 ==> Bit(l.depth, n) % 8 + l.depth <= 8
    ensures l.depth == 16 ==> Bit(l.depth, n) % 16 == 0
    ensures l.depth == 32 ==> Bit(l.depth, n) % 32 == 0
    ensures Bit(l.depth, n + 1) == Bit(l.depth, n) + l.depth
  {
    BitIsProduct(l.depth, n);
    Aligned(l.depth, n, Bit(l.depth, n));
  }

  /** The word that holds a pixel. */
  function WordOf(l: Lcd, n: nat): nat { Bit(l.depth, n) / 32 }

  /** The words at hand include each one that holds a pixel numbered from n up to m. */
  predicate Holds(l: Lcd, dma: map<nat, word>, n: nat, m: nat) {
    forall j: nat :: n <= j < m ==> WordOf(l, j) in dma
  }

  function Pixel(l: Lcd, dma: map<nat, word>, n: nat): nat
    requires l.DepthOk() && WordOf(l, n) in dma
  {
    var q := Bit(l.depth, n);
    PixelFits(l, n);
    Field(l, Swapped(l, dma[q / 32]), q % 32 / 8, q % 8)
  }

  /** The pixels numbered from n up to m. */
  function Row(l: Lcd, dma: map<nat, word>, n: nat, m: nat): seq<nat>
    requires l.DepthOk() && Holds(l, dma, n, m)
    decreases m - n
  {
    if m <= n then [] else Row(l, dma, n, m - 1) + [Pixel(l, dma, m - 1)]
  }

  lemma {:induction false} RowNext(l: Lcd, dma: map<nat, word>, n: nat, m: nat)
    requires l.DepthOk() && n <= m && Holds(l, dma, n, m + 1)
    ensures WordOf(l, m) in dma
    ensures Row(l, dma, n, m + 1) == Row(l, dma, n, m) + [Pixel(l, dma, m)]
  {
  }

  lemma {:induction false} RowConcat(l: Lcd, dma: map<nat, word>, n: nat, m: nat, e: nat)
    requires l.DepthOk() && n <= m <= e && Holds(l, dma, n, e)
    ensures Row(l, dma, n, m) + Row(l, dma, m, e) == Row(l, dma, n, e)
    decreases e - m
  {
    if m < e {
      RowConcat(l, dma, n, m, e - 1);
      assert Row(l, dma, n, m) + (Row(l, dma, m, e - 1) + [Pixel(l, dma, e - 1)])
          == (Row(l, dma, n, m) + Row(l, dma, m, e - 1)) + [Pixel(l, dma, e - 1)];
    }
  }

  lemma {:induction false} RowAt(l: Lcd, dma: map<nat, word>, n: nat, m: nat, j: nat)
    requires l.DepthOk() && n <= m && j < m - n && Holds(l, dma, n, m)
    ensures |Row(l, dma, n, m)| == m - n && Row(l, dma, n, m)[j] == Pixel(l, dma, n + j)
    decreases m - n
  {
    if j < m - n - 1 { RowAt(l, dma, n, m - 1, j); } else if j > 0 { RowAt(l, dma, n, m - 1, j - 1); }
  }

  // ----- The loops -----

  lemma {:induction false} ByteSplit(a: int, k: nat, q: nat)
    requires q == 8 * a + k && k < 8
    ensures q / 8 == a && q % 8 == k
  {
  }

  lemma {:induction false} Position(q: nat, buf: nat, i: nat, k: nat)
    requires q == 32 * buf + 8 * i + k && i < 4 && k < 8
    ensures q / 32 == buf && q % 32 == 8 * i + k && q % 32 / 8 == i && q % 8 == k
  {
    var o := 8 * i + k;
    assert o < 32 && q == 32 * buf + o;
    assert q / 32 == buf && q % 32 == o;
    ByteSplit(4 * buf + i, k, q);
    ByteSplit(i, k, o);
  }

  /** The field the code extracts at byte i, bit k of word buf is the pixel with that bit address. */
  lemma {:induction false} PixelIs(l: Lcd, dma: map<nat, word>, n: nat, buf: nat, i: nat, k: nat)
    requires l.DepthOk() && i < 4 && k < 8 && Bit(l.depth, n) == 32 * buf + 8 * i + k && WordOf(l, n) in dma
    ensures WordOf(l, n) == buf && (l.depth < 16 ==> k + l.depth <= 8)
    ensures Pixel(l, dma, n) == Field(l, Swapped(l, dma[buf]), i, k)
  {
    Position(Bit(l.depth, n), buf, i, k);
    PixelFits(l, n);
  }

  /** One more pixel of a row, taken where the scan stands. */
  lemma {:induction false} TakePixel(l: Lcd, dma: map<nat, word>, n: nat, m: nat, buf: nat, i: nat, k: nat)
    requires l.DepthOk() && i < 4 && k < 8 && Bit(l.depth, m) == 32 * buf + 8 * i + k
    requires n <= m && Holds(l, dma, n, m + 1)
    ensures buf in dma && (l.depth < 16 ==> k + l.depth <= 8)
    ensures Row(l, dma, n, m + 1) == Row(l, dma, n, m) + [Field(l, Swapped(l, dma[buf]), i, k)]
    ensures Bit(l.depth, m + 1) == Bit(l.depth, m) + l.depth
  {
    RowNext(l, dma, n, m);
    PixelIs(l, dma, m, buf, i, k);
    PixelFits(l, m);
  }

  lemma {:induction false} TakeNarrow(l: Lcd, dma: map<nat, word>, n: nat, m: nat, buf: nat, i: nat, k: nat,
                                      color: byte)
    requires l.DepthOk() && l.depth < 16 && i < 4 && k < 8 && Bit(l.depth, m) == 32 * buf + 8 * i + k
    requires n <= m && Holds(l, dma, n, m + 1)
    requires buf in dma && color == ByteOf(l, dma[buf], i)
    ensures k + l.depth <= 8 && Row(l, dma, n, m + 1) == Row(l, dma, n, m) + [InByte(l, color, k)]
    ensures Bit(l.depth, m + 1) == Bit(l.depth, m) + l.depth
  {
    TakePixel(l, dma, n, m, buf, i, k);
  }

  /** A field of 16 or 32 bits starts on a halfword or on the word. */
  lemma {:induction false} WideField(l: Lcd, n: nat, buf: nat, i: nat, k: nat)
    requires l.DepthOk() && l.depth >= 16 && Bit(l.depth, n) == 32 * buf + 8 * i + k && i < 4 && k < 8
    ensures k == 0 && (i == 0 || (i == 2 && l.depth == 16))
  {
    Position(Bit(l.depth, n), buf, i, k);
    PixelFits(l, n);
  }

  /** The byte that holds the pixels at byte i of the scan. */
  function ByteOf(l: Lcd, w: word, i: nat): byte
    requires i < 4
  {
    Lane(Swapped(l, w), if l.rtl then 3 - i else i)
  }

  method UnpackByte(l: Lcd, color: byte, exb: nat, dx0: nat, end: nat,
                    ghost dma: map<nat, word>, ghost base: nat, ghost buf: nat, ghost i: nat)
    returns (out: seq<nat>, dx: nat)
    requires l.DepthOk() && l.depth < 16 && i < 4 && exb < 8 && dx0 < end
    requires Holds(l, dma, base + dx0, base + end) && buf in dma && color == ByteOf(l, dma[buf], i)
    requires Bit(l.depth, base + dx0) == 32 * buf + 8 * i + exb
    ensures dx0 < dx <= end && out == Row(l, dma, base + dx0, base + dx)
    ensures dx < end ==> Bit(l.depth, base + dx) == 32 * buf + 8 * (i + 1)
  {
    out, dx := [], dx0;
    var k: nat := exb;
    while k < 8 && dx < end
      invariant dx0 <= dx <= end && k <= 8 && (dx == dx0 ==> k < 8)
      invariant 32 * buf + 8 * i + k == Bit(l.depth, base + dx)
      invariant out == Row(l, dma, base + dx0, base + dx)
      decreases end - dx
    {
      TakeNarrow(l, dma, base + dx0, base + dx, buf, i, k, color);
      out := out + [InByte(l, color, k)];
      dx := dx + 1;
      k := k + l.depth;
    }
  }

  /** One turn of the loop over the bytes of a word: a byte of pixels, a halfword pixel or a word pixel. */
  method UnpackPiece(l: Lcd, dma: map<nat, word>, buf: nat, i: nat, k: nat, dx0: nat, end: nat, ghost base: nat)
    returns (out: seq<nat>, dx: nat, next: nat)
    requires l.DepthOk() && i < 4 && k < 8 && dx0 < end
    requires Holds(l, dma, base + dx0, base + end) && Bit(l.depth, base + dx0) == 32 * buf + 8 * i + k
    ensures dx0 < dx <= end && next <= 4 && out == Row(l, dma, base + dx0, base + dx)
    ensures dx < end ==> Bit(l.depth, base + dx) == 32 * buf + 8 * next
  {
    if l.depth < 16 {
      PixelIs(l, dma, base + dx0, buf, i, k);
      out, dx := UnpackByte(l, ByteOf(l, dma[buf], i), k, dx0, end, dma, base, buf, i);
      next := i + 1;
    } else {
      WideField(l, base + dx0, buf, i, k);
      TakePixel(l, dma, base + dx0, base + dx0, buf, i, k);
      var block := Swapped(l, dma[buf]);
      dx := dx0 + 1;
      if l.depth == 16 {
        out, next := [if (i == 0) == !l.rtl then block % 0x1_0000 else block / 0x1_0000], i + 2;
      } else {
        out, next := [block], 4;
      }
    }
  }

  method UnpackWord(l: Lcd, dma: map<nat, word>, buf: nat, exw: nat, exb: nat, dx0: nat, end: nat, ghost base: nat)
    returns (out: seq<nat>, dx: nat)
    requires l.DepthOk() && exw < 4 && exb < 8 && dx0 < end
    requires Holds(l, dma, base + dx0, base + end) && Bit(l.depth, base + dx0) == 32 * buf + 8 * exw + exb
    ensures dx0 < dx <= end && out == Row(l, dma, base + dx0, base + dx)
    ensures dx < end ==> Bit(l.depth, base + dx) == 32 * (buf + 1)
  {
    out, dx := [], dx0;
    var i, k := exw, exb;
    while i < 4 && dx < end
      invariant dx0 <= dx <= end && i <= 4 && k < 8 && (dx == dx0 ==> i < 4) && (i == 4 ==> k == 0)
      invariant dx < end ==> 32 * buf + 8 * i + k == Bit(l.depth, base + dx)
      invariant out == Row(l, dma, base + dx0, base + dx)
      decreases end - dx
    {
      var px, after, next := UnpackPiece(l, dma, buf, i, k, dx, end, base);
      RowConcat(l, dma, base + dx0, base + dx, base + after);
      out, dx, i, k := out + px, after, next, 0;
    }
  }

  method UnpackLine(l: Lcd, dma: map<nat, word>, x: nat, end: nat, first: nat, ghost base: nat) returns (out: seq<nat>)
    requires l.DepthOk() && x < end && Holds(l, dma, base + x, base + end) && first == Bit(l.depth, base + x)
    ensures out == Row(l, dma, base + x, base + end)
  {
    Splits(first);
    var exw: nat, exb: nat, buf := first % 32 / 8, first % 8, first / 32;
    var dx := x;
    out := [];
    while dx < end
      invariant x <= dx <= end && exw < 4 && exb < 8
      invariant dx < end ==> Bit(l.depth, base + dx) == 32 * buf + 8 * exw + exb
      invariant out == Row(l, dma, base + x, base + dx)
      decreases end - dx
    {
      var px, next := UnpackWord(l, dma, buf, exw, exb, dx, end, base);
      RowConcat(l, dma, base + x, base + dx, base + next);
      out, dx, buf, exw, exb := out + px, next, buf + 1, 0, 0;
    }
  }

  lemma {:induction false} Splits(q: nat)
    ensures q == 32 * (q / 32) + 8 * (q % 32 / 8) + q % 8 && q % 32 / 8 < 4
  {
    var r := q % 32;
    assert r == 8 * (r / 8) + r % 8;
    ByteSplit(4 * (q / 32) + r / 8, r % 8, q);
  }

  // ----- The rectangle -----

  /** The number of the first pixel of a line. */
  function Base(l: Lcd, dy: nat): nat
    requires l.width >= 0
  {
    if dy == 0 then 0 else Base(l, dy - 1) + l.LineWidth()
  }

  lemma {:induction false} BaseIsProduct(l: Lcd, dy: nat)
    requires l.width >= 0
    ensures Base(l, dy) == l.LineWidth() * dy
  {
    if dy > 0 {
      BaseIsProduct(l, dy - 1);
      assert l.LineWidth() * dy == l.LineWidth() * (dy - 1) + l.LineWidth();
    }
  }

  lemma {:induction false} FirstBit(l: Lcd, dx: nat, dy: nat)
    requires l.width >= 0
    ensures (l.LineWidth() * dy + dx) * l.depth == Bit(l.depth, Base(l, dy) + dx)
  {
    BaseIsProduct(l, dy);
    BitIsProduct(l.depth, Base(l, dy) + dx);
  }

  /** The words at hand include each one that holds a pixel of the rectangle. */
  predicate HoldsRect(l: Lcd, dma: map<nat, word>, r: Rect) {
    Accepted(l, r) && forall dy: nat :: r.y <= dy < r.y + r.h ==> HoldsLine(l, dma, r, dy)
  }

  predicate HoldsLine(l: Lcd, dma: map<nat, word>, r: Rect, dy: nat)
    requires Accepted(l, r)
  {
    Holds(l, dma, Base(l, dy) + r.x, Base(l, dy) + r.x + r.w)
  }

  /** The pixels of line dy. */
  function Line(l: Lcd, dma: map<nat, word>, r: Rect, dy: nat): seq<nat>
    requires Accepted(l, r) && HoldsLine(l, dma, r, dy)
  {
    Row(l, dma, Base(l, dy) + r.x, Base(l, dy) + r.x + r.w)
  }

  /** The pixels of the lines r.y up to dy. */
  function Image(l: Lcd, dma: map<nat, word>, r: Rect, dy: nat): seq<nat>
    requires HoldsRect(l, dma, r) && dy <= r.y + r.h
    decreases dy - r.y
  {
    if dy <= r.y then []
    else Image(l, dma, r, dy - 1) + Line(l, dma, r, dy - 1)
  }

  method Unpack(l: Lcd, dma: map<nat, word>, r: Rect) returns (out: seq<nat>)
    requires Accepted(l, r) ==> HoldsRect(l, dma, r)
    ensures !Accepted(l, r) ==> out == []
    ensures Accepted(l, r) ==> out == Image(l, dma, r, r.y + r.h)
    ensures |out| == if (l.depth == 1 || l.depth == 2 || l.depth == 4 || l.depth == 8 || l.depth == 16 || l.depth == 32)
                        && 0 < l.width && 0 <= r.x && 0 < r.w && r.x + r.w <= l.width
                        && 0 < l.height && 0 <= r.y && 0 < r.h && r.y + r.h <= l.height
                     then r.w * r.h else 0
  {
    out := [];
    if !Accepted(l, r) { return; }
    ImageLength(l, dma, r, r.y + r.h);
    for dy := r.y to r.y + r.h
      invariant out == Image(l, dma, r, dy)
    {
      var line := UnpackLineAt(l, dma, r, dy);
      out := out + line;
    }
  }

  /** One turn of the loop over the lines. */
  method UnpackLineAt(l: Lcd, dma: map<nat, word>, r: Rect, dy: nat) returns (out: seq<nat>)
    requires Accepted(l, r) && HoldsLine(l, dma, r, dy)
    ensures out == Line(l, dma, r, dy)
  {
    FirstBit(l, r.x, dy);
    out := UnpackLine(l, dma, r.x, r.x + r.w, (l.LineWidth() * dy + r.x) * l.depth, Base(l, dy));
  }

  lemma {:induction false} RowLength(l: Lcd, dma: map<nat, word>, n: nat, m: nat)
    requires l.DepthOk() && n <= m && Holds(l, dma, n, m)
    ensures |Row(l, dma, n, m)| == m - n
    decreases m - n
  {
    if n < m { RowLength(l, dma, n, m - 1); }
  }

  // ----- Row-major order -----

  lemma {:induction false} LineLength(l: Lcd, dma: map<nat, word>, r: Rect, dy: nat)
    requires Accepted(l, r) && HoldsLine(l, dma, r, dy)
    ensures |Line(l, dma, r, dy)| == r.w
  {
    RowLength(l, dma, Base(l, dy) + r.x, Base(l, dy) + r.x + r.w);
  }

  lemma {:induction false} ImageLength(l: Lcd, dma: map<nat, word>, r: Rect, end: nat)
    requires HoldsRect(l, dma, r) && r.y <= end <= r.y + r.h
    ensures |Image(l, dma, r, end)| == r.w * (end - r.y)
    decreases end
  {
    if r.y < end {
      LineLength(l, dma, r, end - 1);
      ImageLength(l, dma, r, end - 1);
      OneMoreRow(r.w, end - r.y);
    }
  }

  lemma {:induction false} OneMoreRow(w: nat, n: nat)
    requires n > 0
    ensures w * n == w * (n - 1) + w
  {
  }

  /** Further lines leave the earlier pixels where they are. */
  lemma {:induction false} ImageKeeps(l: Lcd, dma: map<nat, word>, r: Rect, dy: nat, end: nat, k: nat)
    requires HoldsRect(l, dma, r) && r.y <= dy <= end <= r.y + r.h && k < |Image(l, dma, r, dy)|
    ensures k < |Image(l, dma, r, end)| && Image(l, dma, r, end)[k] == Image(l, dma, r, dy)[k]
    decreases end
  {
    if dy < end { ImageKeeps(l, dma, r, dy, end - 1, k); }
  }

  /** Pixel j of line dy, by its place in the image. */
  lemma {:induction false} ImageAt(l: Lcd, dma: map<nat, word>, r: Rect, end: nat, dy: nat, j: nat, at: nat)
    requires HoldsRect(l, dma, r) && r.y <= dy < end <= r.y + r.h && j < r.w
    requires at == |Image(l, dma, r, dy)| + j
    ensures j < |Line(l, dma, r, dy)| && at < |Image(l, dma, r, end)|
    ensures Image(l, dma, r, end)[at] == Line(l, dma, r, dy)[j]
  {
    LineLength(l, dma, r, dy);
    ImageKeeps(l, dma, r, dy + 1, end, at);
  }

  lemma {:induction false} LinePixel(l: Lcd, dma: map<nat, word>, r: Rect, dx: nat, dy: nat)
    requires Accepted(l, r) && HoldsLine(l, dma, r, dy) && r.x <= dx < r.x + r.w
    ensures WordOf(l, Base(l, dy) + dx) in dma && |Line(l, dma, r, dy)| == r.w
    ensures Line(l, dma, r, dy)[dx - r.x] == Pixel(l, dma, Base(l, dy) + dx)
  {
    var n := Base(l, dy) + r.x;
    RowAt(l, dma, n, n + r.w, dx - r.x);
  }

  /** What is emitted: w * h pixels in row-major order, bit t of pixel (dx, dy) being a fixed bit of the word
      that holds bit address (line width * dy + dx) * depth. */
  lemma {:induction false} PixelBits(l: Lcd, dma: map<nat, word>, r: Rect, dx: nat, dy: nat, t: nat, at: int, q: int)
    requires HoldsRect(l, dma, r) && r.y <= dy < r.y + r.h && r.x <= dx < r.x + r.w
    requires at == r.w * (dy - r.y) + (dx - r.x) && q == (l.LineWidth() * dy + dx) * l.depth
    ensures |Image(l, dma, r, r.y + r.h)| == r.w * r.h && 0 <= at < |Image(l, dma, r, r.y + r.h)|
    ensures 0 <= q && q / 32 in dma && 0 <= Low(l, q % 32 / 8, q % 8) <= 32 - l.depth
    ensures BitOf(Image(l, dma, r, r.y + r.h)[at], t)
         == (t < l.depth && BitOf(dma[q / 32], Stored(l, Low(l, q % 32 / 8, q % 8) + t)))
  {
    var p := EmittedAt(l, dma, r, dx, dy, at);
    FirstBit(l, dx, dy);
    PixelBit(l, dma, Base(l, dy) + dx, t, q);
  }

  /** Row-major order: where pixel (dx, dy) is emitted, and how many there are. */
  lemma {:induction false} EmittedAt(l: Lcd, dma: map<nat, word>, r: Rect, dx: nat, dy: nat, at: int) returns (p: nat)
    requires HoldsRect(l, dma, r) && r.y <= dy < r.y + r.h && r.x <= dx < r.x + r.w
    requires at == r.w * (dy - r.y) + (dx - r.x)
    ensures |Image(l, dma, r, r.y + r.h)| == r.w * r.h && 0 <= at < |Image(l, dma, r, r.y + r.h)|
    ensures WordOf(l, Base(l, dy) + dx) in dma
    ensures Image(l, dma, r, r.y + r.h)[at] == p == Pixel(l, dma, Base(l, dy) + dx)
  {
    ImageLength(l, dma, r, dy);
    ImageLength(l, dma, r, r.y + r.h);
    ImageAt(l, dma, r, r.y + r.h, dy, dx - r.x, at);
    LinePixel(l, dma, r, dx, dy);
    p := Line(l, dma, r, dy)[dx - r.x];
  }

  // ----- The depths in familiar terms -----

  /** At 32 bits a pixel is a word. */
  lemma {:induction false} WordPixel(l: Lcd, dma: map<nat, word>, n: nat)
    requires l.depth == 32 && n in dma
    ensures WordOf(l, n) == n && (!l.swap ==> Pixel(l, dma, n) == dma[n])
  {
    BitIsProduct(32, n);
    PixelIs(l, dma, n, n, 0, 0);
  }

  /** At 16 bits, without swap, it is a half of a word: the low half first, or last from right to left. */
  lemma {:induction false} HalfPixel(l: Lcd, dma: map<nat, word>, n: nat)
    requires l.depth == 16 && n / 2 in dma && !l.swap
    ensures WordOf(l, n) == n / 2
    ensures Pixel(l, dma, n) == if (n % 2 == 0) == !l.rtl then dma[n / 2] % 0x1_0000 else dma[n / 2] / 0x1_0000
  {
    BitIsProduct(16, n);
    assert 16 * n == 32 * (n / 2) + 8 * (2 * (n % 2));
    PixelIs(l, dma, n, n / 2, 2 * (n % 2), 0);
  }

  /** At 8 bits it is a byte, counted from the low end of the word unless exactly one of bit order and swap is
      reversed. */
  lemma {:induction false} BytePixel(l: Lcd, dma: map<nat, word>, n: nat)
    requires l.depth == 8 && n / 4 in dma
    ensures WordOf(l, n) == n / 4
    ensures Pixel(l, dma, n) == Lane(dma[n / 4], if l.rtl == l.swap then n % 4 else 3 - n % 4)
  {
    BitIsProduct(8, n);
    var w, i := dma[n / 4], n % 4;
    assert 8 * n == 32 * (n / 4) + 8 * i;
    PixelIs(l, dma, n, n / 4, i, 0);
    var lane := if l.rtl then 3 - i else i;
    WholeByte(l, Lane(Swapped(l, w), lane));
    SwappedLane(l, w, lane);
  }

  lemma {:induction false} WholeByte(l: Lcd, b: byte)
    requires l.depth == 8
    ensures InByte(l, b, 0) == b
  {
    Pow2Of16();
    ShiftMaskAre(b, 8);
  }

  lemma {:induction false} SwappedLane(l: Lcd, w: word, i: nat)
    requires i < 4
    ensures Lane(Swapped(l, w), i) == Lane(w, if l.swap then 3 - i else i)
  {
    LanesAre(Lane(w, 3), Lane(w, 2), Lane(w, 1), Lane(w, 0));
  }

  /** At 1 bit, in plain order, it is a bit, the high bit of each byte first. */
  lemma {:induction false} BitPixel(l: Lcd, dma: map<nat, word>, n: nat)
    requires l.depth == 1 && n / 32 in dma && !l.rtl && !l.swap
    ensures WordOf(l, n) == n / 32
    ensures Pixel(l, dma, n) == if BitOf(Lane(dma[n / 32], n % 32 / 8), 7 - n % 8) then 1 else 0
  {
    BitIsProduct(1, n);
    Splits(n);
    PixelIs(l, dma, n, n / 32, n % 32 / 8, n % 8);
    var b := Lane(dma[n / 32], n % 32 / 8);
    var x := ShiftRight(b, 7 - n % 8);
    ShiftBits(b, 7 - n % 8, 0);
    assert BitOf(x, 0) == (x % 2 == 1);
    assert LowBits(x, 1) == x % 2 by { assert LowBits(x / 2, 0) == 0; }
    assert InByte(l, b, n % 8) == LowBits(x, 1);
  }

  lemma {:induction false} PixelBit(l: Lcd, dma: map<nat, word>, n: nat, t: nat, q: nat)
    requires l.DepthOk() && WordOf(l, n) in dma && q == Bit(l.depth, n)
    ensures 0 <= Low(l, q % 32 / 8, q % 8) <= 32 - l.depth
    ensures BitOf(Pixel(l, dma, n), t)
         == (t < l.depth && BitOf(dma[q / 32], Stored(l, Low(l, q % 32 / 8, q % 8) + t)))
  {
    Splits(q);
    var i, k := q % 32 / 8, q % 8;
    PixelIs(l, dma, n, q / 32, i, k);
    if l.depth >= 16 { WideField(l, n, q / 32, i, k); }
    var block := Swapped(l, dma[q / 32]);
    FieldBits(l, block, i, k, t);
    if t < l.depth { SwappedBits(l, dma[q / 32], Low(l, i, k) + t); }
  }
}
