/** What the packet layer delivers: every packet sent, past noise and damaged frames, and nothing else. */
module GdbPacketsLaws {
  import opened Arith
  import opened Bits
  import opened GdbPackets

  // ----- Hex text -----

  lemma {:induction false} Digits(b: byte)
    ensures FromHex(ToHex(b / 16)) == b / 16 && FromHex(ToHex(b % 16)) == b % 16
  {
  }

  lemma {:induction false} FromTextPrefix(a: seq<byte>, b: seq<byte>, n: nat)
    requires 2 * n <= |a|
    ensures FromText(a + b, n) == FromText(a, n)
  {
    if n > 0 { FromTextPrefix(a, b, n - 1); }
  }

  /** Decoding the text of any bytes gives them back. */
  lemma {:induction false} TextReadsBack(bytes: seq<byte>)
    ensures |HexText(bytes)| == 2 * |bytes| && FromText(HexText(bytes), |bytes|) == bytes
  {
    if bytes != [] {
      var n := |bytes| - 1;
      var front, last := bytes[..n], bytes[n];
      TextReadsBack(front);
      OneMoreByte(HexText(front), n, last);
      assert front + [last] == bytes;
    }
  }

  lemma {:induction false} OneMoreByte(text: seq<byte>, n: nat, b: byte)
    requires |text| == 2 * n
    ensures FromText(text + [ToHex(b / 16), ToHex(b % 16)], n + 1) == FromText(text, n) + [b]
  {
    var all := text + [ToHex(b / 16), ToHex(b % 16)];
    FromTextPrefix(text, [ToHex(b / 16), ToHex(b % 16)], n);
    Digits(b);
    assert all[2 * n] == ToHex(b / 16) && all[2 * n + 1] == ToHex(b % 16);
  }

  predicate LowerHex(c: byte) { 0x30 <= c <= 0x39 || 0x61 <= c <= 0x66 }

  /** Encoding what was decoded gives the text back exactly when its digits are lower-case hex. */
  lemma {:induction false} TextComesBack(text: seq<byte>, n: nat)
    requires 2 * n <= |text|
    ensures HexText(FromText(text, n)) == text[..2 * n] <==> AllLower(text, 2 * n)
  {
    if n > 0 {
      TextComesBack(text, n - 1);
      TextReadsBack(FromText(text, n - 1));
      LastPair(text, n);
      LowerPair(text, n);
    }
  }

  /** The first k characters are lower-case hex digits. */
  predicate AllLower(text: seq<byte>, k: nat)
    requires k <= |text|
  {
    forall i :: 0 <= i < k ==> LowerHex(text[i])
  }

  lemma {:induction false} LowerPair(text: seq<byte>, n: nat)
    requires 0 < n && 2 * n <= |text|
    ensures AllLower(text, 2 * n) <==>
              AllLower(text, 2 * n - 2)
              && ToHex(FromHex(text[2 * n - 2])) == text[2 * n - 2]
              && ToHex(FromHex(text[2 * n - 1])) == text[2 * n - 1]
  {
    DigitComesBack(text[2 * n - 2]);
    DigitComesBack(text[2 * n - 1]);
  }

  lemma {:induction false} LastPair(text: seq<byte>, n: nat)
    requires 0 < n && 2 * n <= |text| && |HexText(FromText(text, n - 1))| == 2 * n - 2
    ensures HexText(FromText(text, n)) == text[..2 * n] <==>
              HexText(FromText(text, n - 1)) == text[..2 * n - 2]
              && ToHex(FromHex(text[2 * n - 2])) == text[2 * n - 2]
              && ToHex(FromHex(text[2 * n - 1])) == text[2 * n - 1]
  {
    var d1, d2 := FromHex(text[2 * n - 2]), FromHex(text[2 * n - 1]);
    var front := FromText(text, n - 1);
    assert FromText(text, n)[..n - 1] == front;
    assert (d1 * 16 + d2) / 16 == d1 && (d1 * 16 + d2) % 16 == d2;
    assert text[..2 * n] == text[..2 * n - 2] + [text[2 * n - 2], text[2 * n - 1]];
    SplitPairs(HexText(front), [ToHex(d1), ToHex(d2)], text[..2 * n - 2], [text[2 * n - 2], text[2 * n - 1]]);
  }

  lemma {:induction false} DigitComesBack(c: byte)
    ensures ToHex(FromHex(c)) == c <==> LowerHex(c)
  {
  }

  lemma {:induction false} SplitPairs(a: seq<byte>, x: seq<byte>, b: seq<byte>, y: seq<byte>)
    requires |a| == |b| && |x| == |y| == 2
    ensures a + x == b + y <==> a == b && x[0] == y[0] && x[1] == y[1]
  {
    if a + x == b + y {
      assert (a + x)[..|a|] == a && (b + y)[..|a|] == b;
      assert (a + x)[|a|..] == x && (b + y)[|a|..] == y;
    }
  }

  const DIGITS := "0123456789abcdef"
  const CAPITALS := "0123456789ABCDEF"

  /** The digits written are those of the lower-case alphabet; those read are of either alphabet, and any other
      character counts as 0. */
  lemma {:induction false} DigitAlphabets(d: nat, c: int)
    requires d < 16
    ensures ToHex(d) == DIGITS[d] as int
    ensures FromHex(DIGITS[d] as int) == d && FromHex(CAPITALS[d] as int) == d
    ensures (forall k :: 0 <= k < 16 ==> c != DIGITS[k] as int && c != CAPITALS[k] as int) ==> FromHex(c) == 0
  {
    if 0x30 <= c <= 0x39 { assert DIGITS[c - 0x30] as int == c; }
    if 0x61 <= c <= 0x66 { assert DIGITS[c - 0x61 + 10] as int == c; }
    if 0x41 <= c <= 0x46 { assert CAPITALS[c - 0x41 + 10] as int == c; }
  }

  /** In hex text the high digit of each byte comes first. */
  lemma {:induction false} TextOrder(bytes: seq<byte>, i: nat)
    requires i < |bytes|
    ensures |HexText(bytes)| == 2 * |bytes|
    ensures HexText(bytes)[2 * i] == DIGITS[bytes[i] / 16] as int
    ensures HexText(bytes)[2 * i + 1] == DIGITS[bytes[i] % 16] as int
    decreases |bytes|
  {
    var n := |bytes| - 1;
    TextReadsBack(bytes);
    TextReadsBack(bytes[..n]);
    if i < n {
      TextOrder(bytes[..n], i);
    } else {
      DigitAlphabets(bytes[n] / 16, 0);
      DigitAlphabets(bytes[n] % 16, 0);
    }
  }

  /** A byte is read from its two characters, the first one counting sixteen times. */
  lemma {:induction false} ReadOrder(text: seq<byte>, n: nat, i: nat)
    requires 2 * n <= |text| && i < n
    ensures FromText(text, n)[i] == FromHex(text[2 * i]) * 16 + FromHex(text[2 * i + 1])
  {
    if i < n - 1 { ReadOrder(text, n - 1, i); }
  }

  /** A frame, character by character. */
  lemma {:induction false} FrameOrder(p: seq<byte>)
    ensures var f := Frame(p); var sum := Total(p) % 256;
            && |f| == |p| + 4 && f[0] == '$' as int && f[1..|p| + 1] == p && f[|p| + 1] == '#' as int
            && f[|p| + 2] == DIGITS[sum / 16] as int && f[|p| + 3] == DIGITS[sum % 16] as int
  {
    SumIsTotal(p);
    DigitAlphabets(Sum(p) / 16, 0);
    DigitAlphabets(Sum(p) % 16, 0);
  }

  // ----- Frames as the receiver sees them -----

  predicate Free(s: seq<byte>, mark: byte) { forall i :: 0 <= i < |s| ==> Low7(s[i]) != mark }

  lemma {:induction false} BeforeStops(s: seq<byte>, mark: byte)
    ensures var n := Before(s, mark); Free(s[..n], mark) && (n < |s| ==> Low7(s[n]) == mark)
  {
    if s != [] && Low7(s[0]) != mark {
      BeforeStops(s[1..], mark);
      var n := Before(s[1..], mark);
      assert s[..n + 1] == [s[0]] + s[1..][..n];
    }
  }

  lemma {:induction false} BeforeFirst(a: seq<byte>, m: byte, b: seq<byte>, mark: byte)
    requires Free(a, mark) && Low7(m) == mark
    ensures Before(a + [m] + b, mark) == |a|
  {
    if a != [] {
      BeforeFirst(a[1..], m, b, mark);
      assert (a + [m] + b)[1..] == a[1..] + [m] + b;
    }
  }

  /** Noise, a character that reads as '$', text, and a character that reads as '#'. */
  datatype Head = Head(noise: seq<byte>, dollar: byte, body: seq<byte>, hash: byte) {
    predicate WellFormed() {
      Free(noise, DOLLAR) && Low7(dollar) == DOLLAR && Free(body, HASH) && Low7(hash) == HASH
    }
    function Wire(): seq<byte> { noise + [dollar] + (body + [hash]) }
    /** Whether the text agrees with the checksum spelt by what follows. */
    predicate Agrees(tail: seq<byte>) { Sum(Masked(body)) == Spelt(Char(tail, 0), Char(tail, 1)) }
  }

  /** A frame with any two characters where its checksum belongs. */
  datatype Framed = Framed(head: Head, h1: byte, h2: byte) {
    function Wire(): seq<byte> { head.Wire() + [h1, h2] }
    predicate Bad() { head.WellFormed() && !head.Agrees([h1, h2]) }
  }

  function Wires(fs: seq<Framed>): seq<byte> {
    if fs == [] then [] else fs[0].Wire() + Wires(fs[1..])
  }

  ghost predicate AllBad(fs: seq<Framed>) {
    forall k :: 0 <= k < |fs| ==> fs[k].Bad()
  }

  lemma {:induction false} TextHead(body: seq<byte>, hash: byte, tail: seq<byte>)
    requires Free(body, HASH) && Low7(hash) == HASH
    ensures TryText(body + [hash] + tail)
         == Tried(Masked(body), Sum(Masked(body)) == Spelt(Char(tail, 0), Char(tail, 1)), Drop(tail, 2))
  {
    var t, n := body + [hash] + tail, |body|;
    BeforeFirst(body, hash, tail, HASH);
    assert t[..n] == body;
    assert Char(t, n + 1) == Char(tail, 0) && Char(t, n + 2) == Char(tail, 1);
    assert Drop(t, n + 3) == Drop(tail, 2);
  }

  lemma {:induction false} TryHead(h: Head, tail: seq<byte>)
    requires h.WellFormed()
    ensures Try(h.Wire() + tail) == Tried(Masked(h.body), h.Agrees(tail), Drop(tail, 2))
  {
    var t := h.body + [h.hash] + tail;
    var s := h.noise + [h.dollar] + t;
    assert h.Wire() + tail == s;
    BeforeFirst(h.noise, h.dollar, t, DOLLAR);
    assert s[|h.noise| + 1..] == t;
    TextHead(h.body, h.hash, tail);
  }

  lemma {:induction false} GetBad(f: Framed, rest: seq<byte>)
    requires f.Bad()
    ensures Get(f.Wire() + rest) == Get(rest).(answers := [MINUS] + Get(rest).answers)
  {
    var tail := [f.h1, f.h2] + rest;
    assert f.Wire() + rest == f.head.Wire() + tail;
    TryHead(f.head, tail);
    assert Drop(tail, 2) == rest;
    GetIsTry(f.head.Wire() + tail);
  }

  lemma {:induction false} GetGood(h: Head, tail: seq<byte>)
    requires h.WellFormed() && h.Agrees(tail)
    ensures Get(h.Wire() + tail) == Got(|h.body|, Masked(h.body), [PLUS], Drop(tail, 2))
  {
    TryHead(h, tail);
    GetIsTry(h.Wire() + tail);
  }

  lemma {:induction false} OneMore(n: nat)
    ensures [MINUS] + Repeat([MINUS], n) == Repeat([MINUS], n + 1)
  {
    if n > 0 {
      OneMore(n - 1);
      assert [MINUS] + (Repeat([MINUS], n - 1) + [MINUS]) == ([MINUS] + Repeat([MINUS], n - 1)) + [MINUS];
    }
  }

  function Answers(n: nat): seq<byte> { Repeat([MINUS], n) + [PLUS] }

  lemma {:induction false} OneMoreAnswer(n: nat)
    ensures [MINUS] + Answers(n) == Answers(n + 1)
  {
    OneMore(n);
  }

  /** Damaged frames are refused one by one, and the first good one is delivered. */
  lemma {:induction false} DeliversFirstGood(fs: seq<Framed>, h: Head, tail: seq<byte>)
    requires AllBad(fs) && h.WellFormed() && h.Agrees(tail)
    ensures Get(Wires(fs) + (h.Wire() + tail)) == Got(|h.body|, Masked(h.body), Answers(|fs|), Drop(tail, 2))
  {
    if fs == [] {
      assert Wires(fs) + (h.Wire() + tail) == h.Wire() + tail;
      GetGood(h, tail);
      assert Answers(0) == [PLUS];
    } else {
      var more := Wires(fs[1..]) + (h.Wire() + tail);
      assert Wires(fs) + (h.Wire() + tail) == fs[0].Wire() + more;
      GetBad(fs[0], more);
      DeliversFirstGood(fs[1..], h, tail);
      OneMoreAnswer(|fs| - 1);
    }
  }

  /** A payload the protocol can carry. */
  predicate Payload(p: seq<byte>) { forall i :: 0 <= i < |p| ==> p[i] < 128 && p[i] != HASH }

  function Check(p: seq<byte>): seq<byte> { [ToHex(Sum(p) / 16), ToHex(Sum(p) % 16)] }

  lemma {:induction false} FrameIsGood(noise: seq<byte>, p: seq<byte>, rest: seq<byte>)
    requires Payload(p) && Free(noise, DOLLAR)
    ensures Head(noise, DOLLAR, p, HASH).WellFormed() && Head(noise, DOLLAR, p, HASH).Agrees(Check(p) + rest)
    ensures Masked(p) == p
  {
    assert Masked(p) == p;
    SpeltIsSum(p);
  }

  lemma {:induction false} DigitsAre7Bit(d: nat)
    requires d < 16
    ensures Low7(ToHex(d)) == ToHex(d)
  {
  }

  /** getpkt undoes putpkt, past noise and any number of damaged frames. */
  lemma {:induction false} GetUndoesPut(fs: seq<Framed>, noise: seq<byte>, p: seq<byte>, rest: seq<byte>)
    requires AllBad(fs) && Free(noise, DOLLAR) && Payload(p)
    ensures Get(Wires(fs) + (noise + Frame(p) + rest)) == Got(|p|, p, Answers(|fs|), rest)
  {
    var h := Head(noise, DOLLAR, p, HASH);
    FrameIsGood(noise, p, rest);
    DeliversFirstGood(fs, h, Check(p) + rest);
    FrameWire(noise, p, rest);
  }

  lemma {:induction false} FrameWire(noise: seq<byte>, p: seq<byte>, rest: seq<byte>)
    ensures noise + Frame(p) + rest == Head(noise, DOLLAR, p, HASH).Wire() + (Check(p) + rest)
    ensures Drop(Check(p) + rest, 2) == rest
  {
  }

  /** An input made of refused frames, and then of one whose checksum agrees. */
  ghost predicate Holds(s: seq<byte>, fs: seq<Framed>, h: Head, tail: seq<byte>) {
    AllBad(fs) && h.WellFormed() && h.Agrees(tail) && s == Wires(fs) + (h.Wire() + tail)
  }

  /** Nothing is delivered that was not framed: an accepted packet's input is damaged frames, then a frame
      whose checksum agrees, where digits cut off by the end of the input count as 0. */
  lemma {:induction false} DeliversOnlyFrames(s: seq<byte>) returns (fs: seq<Framed>, h: Head, tail: seq<byte>)
    requires Get(s).ret >= 0
    ensures Holds(s, fs, h, tail)
    decreases |s|
  {
    h, tail := Parts(s);
    if h.Agrees(tail) {
      fs := [];
      assert Wires(fs) + s == s;
    } else {
      var f, rest := NextInput(s, h, tail);
      var more;
      more, h, tail := DeliversOnlyFrames(rest);
      fs := [f] + more;
      Prepend(s, f, rest, more, h, tail);
    }
  }

  /** A packet is delivered exactly on such inputs, and then it is the agreeing frame's text. */
  lemma {:induction false} DeliveredIffFramed(s: seq<byte>)
    ensures Get(s).ret >= 0 <==> exists fs, h, tail :: Holds(s, fs, h, tail)
    ensures forall fs, h, tail :: Holds(s, fs, h, tail) ==>
              Get(s) == Got(|h.body|, Masked(h.body), Answers(|fs|), Drop(tail, 2))
  {
    forall fs, h, tail | Holds(s, fs, h, tail)
      ensures Get(s) == Got(|h.body|, Masked(h.body), Answers(|fs|), Drop(tail, 2))
    {
      DeliversFirstGood(fs, h, tail);
    }
    if Get(s).ret >= 0 {
      var fs, h, tail := DeliversOnlyFrames(s);
    }
  }

  lemma {:induction false} NextInput(s: seq<byte>, h: Head, tail: seq<byte>) returns (f: Framed, rest: seq<byte>)
    requires Get(s).ret >= 0 && h.WellFormed() && s == h.Wire() + tail && !h.Agrees(tail)
    ensures f.Bad() && s == f.Wire() + rest && |rest| < |s| && Get(rest).ret >= 0
  {
    LongTail(h, tail);
    f, rest := Framed(h, tail[0], tail[1]), tail[2..];
    CutFrame(f, tail);
    GetBad(f, rest);
  }

  lemma {:induction false} Prepend(s: seq<byte>, f: Framed, rest: seq<byte>, more: seq<Framed>, h: Head,
                                   tail: seq<byte>)
    requires f.Bad() && s == f.Wire() + rest && Holds(rest, more, h, tail)
    ensures Holds(s, [f] + more, h, tail)
  {
    var last := h.Wire() + tail;
    assert ([f] + more)[1..] == more;
    assert f.Wire() + (Wires(more) + last) == Wires([f] + more) + last;
  }

  lemma {:induction false} CutFrame(f: Framed, tail: seq<byte>)
    requires |tail| >= 2 && f.h1 == tail[0] && f.h2 == tail[1]
    ensures f.head.Wire() + tail == f.Wire() + tail[2..]
    ensures f.head.Agrees([f.h1, f.h2]) == f.head.Agrees(tail)
  {
    assert tail == [tail[0], tail[1]] + tail[2..];
  }

  /** A refused frame that ends the input is not followed by a packet. */
  lemma {:induction false} LongTail(h: Head, tail: seq<byte>)
    requires h.WellFormed() && !h.Agrees(tail) && Get(h.Wire() + tail).ret >= 0
    ensures |tail| >= 2
  {
    TryHead(h, tail);
    GetIsTry(h.Wire() + tail);
    EmptyEnds();
  }

  lemma {:induction false} EmptyEnds()
    ensures Get([]).ret == -1
  {
  }

  lemma {:induction false} Parts(s: seq<byte>) returns (h: Head, tail: seq<byte>)
    requires Get(s).ret >= 0
    ensures h.WellFormed() && s == h.Wire() + tail
  {
    GetIsTry(s);
    var d := Before(s, DOLLAR);
    var t := s[d + 1..];
    var n := Before(t, HASH);
    BeforeStops(s, DOLLAR);
    BeforeStops(t, HASH);
    h, tail := Head(s[..d], s[d], t[..n], t[n]), t[n + 1..];
    Reassemble(s, d, t, n);
  }

  lemma {:induction false} Reassemble(s: seq<byte>, d: nat, t: seq<byte>, n: nat)
    requires d < |s| && t == s[d + 1..] && n < |t|
    ensures s == s[..d] + [s[d]] + (t[..n] + [t[n]]) + t[n + 1..]
  {
    assert t == t[..n] + [t[n]] + t[n + 1..];
  }

  // ----- Checksums that are not two hex digits -----

  predicate IsHex(c: byte) { 0x30 <= c <= 0x39 || 0x41 <= c <= 0x46 || 0x61 <= c <= 0x66 }

  /** The frame is followed by two hex digits. */
  predicate TwoDigits(tail: seq<byte>) { |tail| >= 2 && IsHex(Low7(tail[0])) && IsHex(Low7(tail[1])) }

  /** The call takes this frame, not a later one. */
  predicate Taken(h: Head, tail: seq<byte>) { Get(h.Wire() + tail).answers == [PLUS] }

  lemma {:induction false} TakenIffAgrees(h: Head, tail: seq<byte>)
    requires h.WellFormed()
    ensures Taken(h, tail) <==> h.Agrees(tail)
    ensures Taken(h, tail) ==> Get(h.Wire() + tail).ret == |h.body| && Get(h.Wire() + tail).body == Masked(h.body)
  {
    TryHead(h, tail);
    GetIsTry(h.Wire() + tail);
    if !h.Agrees(tail) { assert Get(h.Wire() + tail).answers[0] == MINUS; }
  }

  /** A frame cut off after '#' is delivered exactly when its text sums to 0. */
  lemma {:induction false} CutAfterHash(h: Head)
    requires h.WellFormed()
    ensures Get(h.Wire()).ret >= 0 <==> Sum(Masked(h.body)) == 0
  {
    assert h.Wire() + [] == h.Wire();
    TryHead(h, []);
    GetIsTry(h.Wire());
    EmptyEnds();
  }

  /** A frame cut off after one digit is delivered exactly when its text sums to sixteen times that digit. */
  lemma {:induction false} CutAfterOneDigit(h: Head, c: byte)
    requires h.WellFormed()
    ensures Get(h.Wire() + [c]).ret >= 0 <==> Sum(Masked(h.body)) == FromHex(Low7(c)) * 16
  {
    TryHead(h, [c]);
    GetIsTry(h.Wire() + [c]);
    EmptyEnds();
  }

  /** The shortest cut-off frame: "$#" and the end of the input is an empty packet, acknowledged. */
  lemma {:induction false} EmptyCutFrame()
    ensures Get([DOLLAR, HASH]) == Got(0, [], [PLUS], [])
  {
    var h := Head([], DOLLAR, [], HASH);
    assert h.Wire() == [DOLLAR, HASH] && h.Wire() + [] == h.Wire();
    TryHead(h, []);
    GetIsTry(h.Wire());
    assert Masked([]) == [];
  }

  /** A text whose sum has two non-zero digits is taken only with two hex digits behind it; any other text is
      also taken with something else there. */
  lemma {:induction false} DigitsNeededIff(h: Head)
    requires h.WellFormed()
    ensures (forall tail :: Taken(h, tail) ==> TwoDigits(tail))
            <==> Sum(Masked(h.body)) / 16 != 0 && Sum(Masked(h.body)) % 16 != 0
  {
    var sum := Sum(Masked(h.body));
    if sum / 16 != 0 && sum % 16 != 0 {
      forall tail | Taken(h, tail) ensures TwoDigits(tail) {
        TakenIffAgrees(h, tail);
        SpeltDigits(Char(tail, 0), Char(tail, 1), sum);
      }
    } else {
      var tail := [if sum / 16 == 0 then 0 else ToHex(sum / 16), if sum % 16 == 0 then 0 else ToHex(sum % 16)];
      TakenIffAgrees(h, tail);
      SpeltIsSum(Masked(h.body));
      assert !TwoDigits(tail);
    }
  }

  /** Both values come from digits when neither is 0. */
  lemma {:induction false} SpeltDigits(c1: int, c2: int, sum: byte)
    requires Spelt(c1, c2) == sum && sum / 16 != 0 && sum % 16 != 0
    ensures 0 <= c1 < 256 && 0 <= c2 < 256 && IsHex(c1) && IsHex(c2)
  {
    var d1, d2 := FromHex(c1), FromHex(c2);
    assert sum / 16 == d1 && sum % 16 == d2;
  }

  // ----- Damage, refusal and retransmission -----

  function Total(s: seq<byte>): nat {
    if s == [] then 0 else Total(s[..|s| - 1]) + s[|s| - 1]
  }

  lemma {:induction false} AddMod(a: nat, b: nat)
    ensures (a % 256 + b) % 256 == (a + b) % 256
  {
    assert a + b == 256 * (a / 256) + (a % 256 + b);
  }

  lemma {:induction false} SumIsTotal(s: seq<byte>)
    ensures Sum(s) == Total(s) % 256
  {
    if s != [] {
      SumIsTotal(s[..|s| - 1]);
      AddMod(Total(s[..|s| - 1]), s[|s| - 1]);
    }
  }

  lemma {:induction false} TotalChange(p: seq<byte>, i: nat, v: byte)
    requires i < |p|
    ensures Total(p[i := v]) == Total(p) - p[i] + v
  {
    var n := |p| - 1;
    var q := p[i := v];
    if i == n {
      assert q[..n] == p[..n];
    } else {
      assert q[..n] == p[..n][i := v];
      TotalChange(p[..n], i, v);
    }
  }

  /** One character of the text replaced by one that reads differently and is not '#'. */
  datatype Damage = Damage(at: nat, to: byte) {
    predicate Hits(p: seq<byte>) { at < |p| && Low7(to) != p[at] && Low7(to) != HASH }
  }

  function Damaged(p: seq<byte>, e: Damage): Framed
    requires e.Hits(p)
  {
    Framed(Head([], DOLLAR, p[e.at := e.to], HASH), ToHex(Sum(p) / 16), ToHex(Sum(p) % 16))
  }

  function Copies(p: seq<byte>, es: seq<Damage>): (fs: seq<Framed>)
    requires forall k :: 0 <= k < |es| ==> es[k].Hits(p)
    ensures |fs| == |es|
  {
    seq(|es|, k requires 0 <= k < |es| => Damaged(p, es[k]))
  }

  lemma {:induction false} DamageIsBad(p: seq<byte>, e: Damage)
    requires Payload(p) && e.Hits(p)
    ensures Damaged(p, e).Bad()
  {
    MaskedChange(p, e);
    SumChanges(p, e.at, Low7(e.to));
    SpeltIsSum(p);
  }

  lemma {:induction false} MaskedChange(p: seq<byte>, e: Damage)
    requires Payload(p) && e.Hits(p)
    ensures Masked(p[e.at := e.to]) == p[e.at := Low7(e.to)] && Free(p[e.at := e.to], HASH)
  {
  }

  lemma {:induction false} ModDiffers(a: nat, b: nat)
    requires a != b && a < b + 128 && b < a + 128
    ensures a % 256 != b % 256
  {
    var p, q := a / 256, b / 256;
    assert a == 256 * p + a % 256 && b == 256 * q + b % 256;
  }

  lemma {:induction false} SumChanges(p: seq<byte>, i: nat, v: byte)
    requires i < |p| && p[i] < 128 && v < 128 && v != p[i]
    ensures Sum(p[i := v]) != Sum(p)
  {
    TotalChange(p, i, v);
    SumIsTotal(p);
    SumIsTotal(p[i := v]);
    ModDiffers(Total(p), Total(p[i := v]));
  }

  lemma {:induction false} SpeltIsSum(p: seq<byte>)
    ensures Spelt(Low7(ToHex(Sum(p) / 16)), Low7(ToHex(Sum(p) % 16))) == Sum(p)
  {
    Digits(Sum(p));
    DigitsAre7Bit(Sum(p) / 16);
    DigitsAre7Bit(Sum(p) % 16);
  }

  lemma {:induction false} AnswersLength(n: nat)
    ensures |Answers(n)| == n + 1
  {
    if n > 0 {
      OneMoreAnswer(n - 1);
      AnswersLength(n - 1);
    }
  }

  lemma {:induction false} AckAfter(n: nat)
    ensures AckAt(Answers(n)) == Some(n)
  {
    if n == 0 {
      assert Answers(0) == [PLUS];
    } else {
      OneMoreAnswer(n - 1);
      assert Answers(n)[1..] == Answers(n - 1);
      AckAfter(n - 1);
    }
  }

  /** Copy j of a frame within what was sent. */
  predicate CopyAt(sent: seq<byte>, frame: seq<byte>, j: nat) {
    |frame| * (j + 1) <= |sent| && sent[|frame| * j..|frame| * (j + 1)] == frame
  }

  lemma {:induction false} RepeatIsCopies(frame: seq<byte>, n: nat)
    ensures |Repeat(frame, n)| == |frame| * n && forall j: nat :: j < n ==> CopyAt(Repeat(frame, n), frame, j)
  {
    if n > 0 {
      RepeatIsCopies(frame, n - 1);
      var before := Repeat(frame, n - 1);
      assert |frame| * n == |frame| * (n - 1) + |frame|;
      forall j: nat | j < n ensures CopyAt(Repeat(frame, n), frame, j) {
        if j < n - 1 {
          assert CopyAt(before, frame, j);
          MulMono(|frame|, j, j + 1);
          StillThere(before, frame, |frame| * j, |frame| * (j + 1));
        }
      }
    }
  }

  lemma {:induction false} StillThere(s: seq<byte>, t: seq<byte>, i: nat, j: nat)
    requires i <= j <= |s|
    ensures (s + t)[i..j] == s[i..j]
  {
  }

  lemma {:induction false} FirstAck(acks: seq<byte>, k: nat)
    requires k <= |acks| && (k < |acks| ==> acks[k] == PLUS) && forall i :: 0 <= i < k ==> acks[i] != PLUS
    ensures AckAt(acks) == if k < |acks| then Some(k) else None
  {
    if k > 0 {
      assert forall i :: 0 <= i < k - 1 ==> acks[1..][i] == acks[i + 1];
      FirstAck(acks[1..], k - 1);
    }
  }

  /** With k bytes before the first '+' the frame goes out k + 1 times and the rest of the input stays; with no '+'
      it goes out once more than there are bytes, and the send fails. */
  lemma {:induction false} SentOncePerByte(frame: seq<byte>, acks: seq<byte>, k: nat)
    requires k <= |acks| && (k < |acks| ==> acks[k] == '+' as int) && forall i :: 0 <= i < k ==> acks[i] != '+' as int
    ensures var o := SendUntilAck(frame, acks);
            && o.ret == (if k < |acks| then 1 else -1) && o.left == (if k < |acks| then acks[k + 1..] else [])
            && |o.sent| == |frame| * (k + 1) && forall j: nat :: j <= k ==> CopyAt(o.sent, frame, j)
  {
    FirstAck(acks, k);
    RepeatIsCopies(frame, k + 1);
  }

  /** A packet whose first copies each arrive with one character damaged: every damaged copy is refused, the
      packet is delivered once, and a sender that gets these answers sends exactly one frame for each copy that
      arrived and reports success. */
  lemma {:induction false} Retransmission(p: seq<byte>, es: seq<Damage>, rest: seq<byte>)
    requires Payload(p) && forall k :: 0 <= k < |es| ==> es[k].Hits(p)
    ensures var g := Get(Wires(Copies(p, es)) + (Frame(p) + rest));
            && g.ret == |p| && g.body == p && g.rest == rest
            && SendUntilAck(Frame(p), g.answers) == Outcome(1, Repeat(Frame(p), |es| + 1), [])
  {
    forall k | 0 <= k < |es| ensures Copies(p, es)[k].Bad() {
      DamageIsBad(p, es[k]);
    }
    CleanCopyFollows(Copies(p, es), p, rest);
    AckAfter(|es|);
    AnswersLength(|es|);
  }

  lemma {:induction false} CleanCopyFollows(fs: seq<Framed>, p: seq<byte>, rest: seq<byte>)
    requires AllBad(fs) && Payload(p)
    ensures Get(Wires(fs) + (Frame(p) + rest)) == Got(|p|, p, Answers(|fs|), rest)
  {
    assert Frame(p) + rest == [] + Frame(p) + rest;
    GetUndoesPut(fs, [], p, rest);
  }
}
