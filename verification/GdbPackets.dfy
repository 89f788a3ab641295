/** The remote-debugging packet layer: hex digits, framing with a checksum, acknowledgements. */
module GdbPackets {
  import opened Bits

  const DOLLAR: byte := 0x24
  const HASH: byte := 0x23
  const PLUS: byte := 0x2b
  const MINUS: byte := 0x2d

  // ----- Hex digits -----

  /** The value of a hex digit; anything else, end of input (-1) included, counts as 0. */
  function FromHex(a: int): (r: nat)
    ensures r < 16
  {
    if 0x30 <= a <= 0x39 then a - 0x30
    else if 0x61 <= a <= 0x66 then a - 0x61 + 10
    else if 0x41 <= a <= 0x46 then a - 0x41 + 10
    else 0
  }

  function ToHex(nib: nat): byte
    requires nib < 16
  {
    if nib < 10 then 0x30 + nib else 0x61 + nib - 10
  }

  function HexText(bytes: seq<byte>): seq<byte> {
    if bytes == [] then []
    else HexText(bytes[..|bytes| - 1]) + [ToHex(bytes[|bytes| - 1] / 16), ToHex(bytes[|bytes| - 1] % 16)]
  }

  /** n bytes from the text; the text has 2 * n digits. */
  function FromText(text: seq<byte>, n: nat): (r: seq<byte>)
    requires 2 * n <= |text|
    ensures |r| == n
  {
    if n == 0 then []
    else FromText(text, n - 1) + [FromHex(text[2 * n - 2]) * 16 + FromHex(text[2 * n - 1])]
  }

  method ConvertIntToAscii(from: seq<byte>) returns (to: seq<byte>)
    ensures to == HexText(from) + [0]
  {
    to := [];
    for i := 0 to |from|
      invariant to == HexText(from[..i])
    {
      assert from[..i + 1][..i] == from[..i];
      to := to + [ToHex(from[i] / 16)] + [ToHex(from[i] % 16)];
    }
    assert from[..|from|] == from;
    to := to + [0];
  }

  method ConvertAsciiToInt(from: seq<byte>, n: nat) returns (to: seq<byte>)
    requires 2 * n <= |from|
    ensures to == FromText(from, n)
  {
    to := [];
    for i := 0 to n
      invariant to == FromText(from, i)
    {
      to := to + [FromHex(from[2 * i]) * 16 + FromHex(from[2 * i + 1])];
    }
  }

  // ----- What goes over the wire -----

  /** The characters added modulo 256. */
  function Sum(s: seq<byte>): byte {
    if s == [] then 0 else
      var before: nat, last: nat := Sum(s[..|s| - 1]), s[|s| - 1];
      (before + last) % 256
  }

  function Frame(p: seq<byte>): seq<byte> {
    [DOLLAR] + p + [HASH, ToHex(Sum(p) / 16), ToHex(Sum(p) % 16)]
  }

  function Repeat(s: seq<byte>, n: nat): seq<byte> {
    if n == 0 then [] else Repeat(s, n - 1) + s
  }

  function Concat(chunks: seq<seq<byte>>): seq<byte> {
    if chunks == [] then [] else chunks[0] + Concat(chunks[1..])
  }

  datatype Option<T> = None | Some(value: T)

  /** How many bytes come before the first '+'. */
  function AckAt(s: seq<byte>): (r: Option<nat>)
    ensures r.Some? ==> r.value < |s|
  {
    if s == [] then None
    else if s[0] == PLUS then Some(0)
    else match AckAt(s[1..]) case None => None case Some(k) => Some(k + 1)
  }

  /** What a send returns, puts on the wire and leaves of the acknowledgements. */
  datatype Outcome = Outcome(ret: int, sent: seq<byte>, left: seq<byte>)

  /** A frame goes out once for each byte received up to the first '+'. */
  function SendUntilAck(frame: seq<byte>, acks: seq<byte>): Outcome {
    match AckAt(acks)
    case Some(k) => Outcome(1, Repeat(frame, k + 1), acks[k + 1..])
    case None => Outcome(-1, Repeat(frame, |acks| + 1), [])
  }

  /** The call after n bytes that are not '+'. */
  predicate NotYet(acks: seq<byte>, n: nat) {
    n <= |acks| && AckAt(acks) == Later(AckAt(acks[n..]), n)
  }

  lemma {:induction false} NotYetNext(acks: seq<byte>, n: nat)
    requires NotYet(acks, n) && n < |acks| && acks[n] != PLUS
    ensures NotYet(acks, n + 1)
  {
    assert acks[n..][1..] == acks[n + 1..];
  }

  lemma {:induction false} AckDecides(frame: seq<byte>, acks: seq<byte>, n: nat)
    requires NotYet(acks, n)
    ensures n == |acks| ==> SendUntilAck(frame, acks) == Outcome(-1, Repeat(frame, n) + frame, [])
    ensures n < |acks| && acks[n] == PLUS ==>
              SendUntilAck(frame, acks) == Outcome(1, Repeat(frame, n) + frame, acks[n + 1..])
  {
  }

  // ----- The receiver, on the stream of input bytes -----

  function Low7(c: byte): byte { c % 128 }

  function Masked(s: seq<byte>): seq<byte> {
    seq(|s|, i requires 0 <= i < |s| => Low7(s[i]))
  }

  /** How many characters come before the first one that reads as `mark`; all of them if there is none. */
  function Before(s: seq<byte>, mark: byte): (n: nat)
    ensures n <= |s|
  {
    if s == [] || Low7(s[0]) == mark then 0 else Before(s[1..], mark) + 1
  }

  /** The next character, or -1 at the end of the input. */
  function Char(s: seq<byte>, i: nat): int { if i < |s| then Low7(s[i]) else -1 }

  function Drop(s: seq<byte>, n: nat): seq<byte> { if n <= |s| then s[n..] else [] }

  /** The checksum that two characters spell. */
  function Spelt(c1: int, c2: int): nat { FromHex(c1) * 16 + FromHex(c2) }

  /** One attempt: what follows '$', up to '#', and whether the two digits after it agree. */
  datatype Attempt = Ended | Tried(body: seq<byte>, good: bool, rest: seq<byte>)

  function Try(s: seq<byte>): (r: Attempt)
    ensures r.Tried? ==> |r.rest| < |s|
  {
    var d := Before(s, DOLLAR);
    if d == |s| then Ended else TryText(s[d + 1..])
  }

  /** The part of an attempt after the '$'. */
  function TryText(t: seq<byte>): (r: Attempt)
    ensures r.Tried? ==> |r.rest| < |t|
  {
    var h := Before(t, HASH);
    if h == |t| then Ended else
      var body := Masked(t[..h]);
      Tried(body, Sum(body) == Spelt(Char(t, h + 1), Char(t, h + 2)), Drop(t, h + 3))
  }

  /** What a call returns, leaves in the buffer and answers. */
  datatype Got = Got(ret: int, body: seq<byte>, answers: seq<byte>, rest: seq<byte>)

  function Nak(g: Got): Got { g.(answers := [MINUS] + g.answers) }

  function Get(s: seq<byte>): Got
    decreases |s|
  {
    match Try(s)
    case Ended => Got(-1, [], [], [])
    case Tried(body, good, rest) => if good then Got(|body|, body, [PLUS], rest) else Nak(Get(rest))
  }

  lemma {:induction false} GetIsTry(s: seq<byte>)
    ensures Try(s).Ended? ==> Get(s) == Got(-1, [], [], [])
    ensures Try(s).Tried? && Try(s).good ==> Get(s) == Got(|Try(s).body|, Try(s).body, [PLUS], Try(s).rest)
    ensures Try(s).Tried? && !Try(s).good ==> Get(s) == Nak(Get(Try(s).rest))
    ensures Try(s).Tried? ==> |Try(s).rest| < |s|
  {
  }

  /** What is still to be done, g, completes what was answered, sent, to the whole call. */
  ghost predicate Answered(whole: Got, sent: seq<byte>, g: Got, before: seq<byte>) {
    && whole.ret == g.ret && whole.body == g.body && whole.rest == g.rest
    && before + whole.answers == sent + g.answers
  }

  lemma {:induction false} Refused(whole: Got, sent: seq<byte>, g: Got, next: Got, before: seq<byte>)
    requires Answered(whole, sent, g, before) && g == Nak(next)
    ensures Answered(whole, sent + [MINUS], next, before)
  {
    assert sent + ([MINUS] + next.answers) == (sent + [MINUS]) + next.answers;
  }

  // ----- The connection -----

  class Connection {
    var wire: seq<seq<byte>>   // what each coming read of the socket will deliver
    var ahead: seq<byte>       // read from the socket and not yet consumed by readchar
    var sent: seq<byte>

    ghost predicate Valid()
      reads this
    {
      forall k :: 0 <= k < |wire| ==> wire[k] != []
    }

    ghost function Pending(): seq<byte>
      reads this
    {
      ahead + Concat(wire)
    }

    constructor (chunks: seq<seq<byte>>)
      requires forall k :: 0 <= k < |chunks| ==> chunks[k] != []
      ensures Valid() && Pending() == Concat(chunks) && sent == []
    {
      wire, ahead, sent := chunks, [], [];
    }

    method ReadChar() returns (c: int)
      requires Valid()
      modifies this`wire, this`ahead
      ensures Valid()
      ensures c == Char(old(Pending()), 0) && Pending() == Drop(old(Pending()), 1)
    {
      if ahead == [] {
        if wire == [] { return -1; }
        ahead, wire := wire[0], wire[1..];
      }
      c := Low7(ahead[0]);
      ahead := ahead[1..];
    }

    /** Returns true past a '$', false at the end of the input. */
    method SkipToDollar() returns (ok: bool)
      requires Valid()
      modifies this`wire, this`ahead
      ensures Valid()
      ensures ok == (Before(old(Pending()), DOLLAR) < |old(Pending())|)
      ensures Pending() == Drop(old(Pending()), Before(old(Pending()), DOLLAR) + 1)
    {
      ghost var s := Pending();
      ghost var n := 0;
      while true
        invariant Valid() && n <= |s| && Pending() == s[n..]
        invariant Before(s, DOLLAR) == n + Before(s[n..], DOLLAR)
        decreases |s| - n
      {
        var c := ReadChar();
        if c == DOLLAR { return true; }
        if c < 0 { return false; }
        assert s[n..][1..] == s[n + 1..];
        n := n + 1;
      }
    }

    method ReadBody() returns (ok: bool, body: seq<byte>, csum: byte)
      requires Valid()
      modifies this`wire, this`ahead
      ensures Valid()
      ensures ok == (Before(old(Pending()), HASH) < |old(Pending())|)
      ensures Pending() == Drop(old(Pending()), Before(old(Pending()), HASH) + 1)
      ensures body == Masked(old(Pending())[..Before(old(Pending()), HASH)]) && csum == Sum(body)
    {
      ghost var s := Pending();
      body, csum := [], 0;
      while true
        invariant Valid() && |body| <= |s| && Pending() == s[|body|..]
        invariant Before(s, HASH) == |body| + Before(s[|body|..], HASH)
        invariant body == Masked(s[..|body|]) && csum == Sum(body)
        decreases |s| - |body|
      {
        var c := ReadChar();
        if c < 0 { return false, body, csum; }
        if c == HASH { return true, body, csum; }
        BodyStep(s, body, csum);
        var total: nat := csum;
        body, csum := body + [c], (total + c) % 256;
      }
    }

    method ReadText() returns (ended: bool, body: seq<byte>, good: bool)
      requires Valid()
      modifies this`wire, this`ahead
      ensures Valid()
      ensures ended == TryText(old(Pending())).Ended? && (ended ==> Pending() == [])
      ensures !ended ==> TryText(old(Pending())) == Tried(body, good, Pending())
    {
      var ok, csum;
      ok, body, csum := ReadBody();
      if !ok { return true, body, false; }
      var c1 := ReadChar();
      var c2 := ReadChar();
      ended, good := false, csum == FromHex(c1) * 16 + FromHex(c2);
    }

    /** One attempt at a packet; `ended` at the end of the input. */
    method TryPkt() returns (ended: bool, body: seq<byte>, good: bool)
      requires Valid()
      modifies this`wire, this`ahead
      ensures Valid()
      ensures ended == Try(old(Pending())).Ended? && (ended ==> Pending() == [])
      ensures !ended ==> Try(old(Pending())) == Tried(body, good, Pending())
    {
      var ok := SkipToDollar();
      if !ok { return true, [], false; }
      ended, body, good := ReadText();
    }

    method GetPkt() returns (ret: int, buf: seq<byte>)
      requires Valid()
      modifies this
      ensures Valid()
      ensures var g := Get(old(Pending()));
              ret == g.ret && sent == old(sent) + g.answers && Pending() == g.rest && (ret >= 0 ==> buf == g.body)
    {
      ghost var g := Get(Pending());
      ghost var now := g;
      while true
        invariant Valid() && now == Get(Pending()) && Answered(g, sent, now, old(sent))
        decreases |Pending()|
      {
        var ended, good;
        ended, buf, good := GetStep();
        if ended { return -1, buf; }
        if good { break; }
        ghost var next := Get(Pending());
        Refused(g, sent, now, next, old(sent));
        sent, now := sent + [MINUS], next;
      }
      sent := sent + [PLUS];
      ret := |buf|;
    }

    /** One attempt, against the whole call. */
    method GetStep() returns (ended: bool, body: seq<byte>, good: bool)
      requires Valid()
      modifies this`wire, this`ahead
      ensures Valid()
      ensures ended ==> Get(old(Pending())) == Got(-1, [], [], Pending())
      ensures !ended ==> |Pending()| < |old(Pending())|
      ensures !ended && good ==> Get(old(Pending())) == Got(|body|, body, [PLUS], Pending())
      ensures !ended && !good ==> Get(old(Pending())) == Nak(Get(Pending()))
    {
      GetIsTry(Pending());
      ended, body, good := TryPkt();
    }

    /** Acknowledgements are read from the socket itself, past whatever readchar holds ahead. */
    method ReadAck() returns (c: int)
      requires Valid()
      modifies this`wire
      ensures Valid()
      ensures old(Concat(wire)) == [] ==> c == -1 && Concat(wire) == []
      ensures old(Concat(wire)) != [] ==> c == old(Concat(wire))[0] && Concat(wire) == old(Concat(wire))[1..]
    {
      if wire == [] { return -1; }
      c := wire[0][0];
      if |wire[0]| == 1 { wire := wire[1..]; } else { wire := [wire[0][1..]] + wire[1..]; }
    }

    method PutPkt(p: seq<byte>) returns (ret: int)
      requires Valid() && |p| <= 1995 && 0 !in p
      modifies this`wire, this`sent
      ensures Valid()
      ensures var o := SendUntilAck(Frame(p), old(Concat(wire)));
              ret == o.ret && sent == old(sent) + o.sent && Concat(wire) == o.left
    {
      var buf2 := Enclose(p);
      ret := SendOver(buf2);
    }

    /** Send it over and over until a positive acknowledgement. */
    method SendOver(buf2: seq<byte>) returns (ret: int)
      requires Valid()
      modifies this`wire, this`sent
      ensures Valid()
      ensures var o := SendUntilAck(buf2, old(Concat(wire)));
              ret == o.ret && sent == old(sent) + o.sent && Concat(wire) == o.left
    {
      ghost var s := Concat(wire);
      ghost var n := 0;
      while true
        invariant Valid() && NotYet(s, n) && Concat(wire) == s[n..]
        invariant sent == old(sent) + Repeat(buf2, n)
        decreases |s| - n
      {
        AckDecides(buf2, s, n);
        sent := sent + buf2;
        var cc := ReadAck();
        if cc == -1 { return -1; }
        if cc == PLUS { return 1; }
        NotYetNext(s, n);
        n := n + 1;
      }
    }
  }

  function Later(r: Option<nat>, n: nat): Option<nat> {
    match r case None => None case Some(k) => Some(n + k)
  }

  lemma {:induction false} BodyStep(s: seq<byte>, body: seq<byte>, csum: nat)
    requires |body| < |s| && body == Masked(s[..|body|]) && csum == Sum(body)
    requires Low7(s[|body|]) != HASH
    ensures Before(s[|body|..], HASH) == 1 + Before(s[|body| + 1..], HASH)
    ensures body + [Low7(s[|body|])] == Masked(s[..|body| + 1])
    ensures Sum(body + [Low7(s[|body|])]) == (csum + Low7(s[|body|])) % 256
  {
    var n := |body|;
    assert s[n..][1..] == s[n + 1..];
    assert (body + [Low7(s[n])])[..n] == body;
  }

  /** Copies the packet between '$' and '#' and appends its checksum. */
  method Enclose(p: seq<byte>) returns (buf2: seq<byte>)
    ensures buf2 == Frame(p)
  {
    var csum: byte := 0;
    buf2 := [DOLLAR];
    for i := 0 to |p|
      invariant buf2 == [DOLLAR] + p[..i] && csum == Sum(p[..i])
    {
      assert p[..i + 1][..i] == p[..i];
      var total: nat, c: nat := csum, p[i];
      csum := (total + c) % 256;
      buf2 := buf2 + [p[i]];
    }
    assert p[..|p|] == p;
    buf2 := buf2 + [HASH] + [ToHex(csum / 16)] + [ToHex(csum % 16)];
  }
}
