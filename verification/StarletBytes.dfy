/** Programs and reads through the controller, byte by byte: which guest byte ends in which column of the page, and
    which byte of the page in which place of guest memory. */
module StarletBytes {
  import opened Bits
  import opened NandChip
  import opened NandRuns
  import opened StarletNand
  import opened StarletPrograms

  // ----- Where the bytes of a part come from -----

  predicate Covers(p: Part, c: nat) { p.col <= c < p.col + p.size }

  /** The guest byte for column c of a part: from the source on, and past the data area from the code register on. */
  function SourceByte(t: Ctrl, p: Part, c: nat): byte
    requires PartFits(t, p) && Covers(p, c)
  {
    var k := c - p.col;
    if p.size <= 0x800 then t.guest[p.src + k]
    else if k < 0x800 then t.guest[p.src + k]
    else t.guest[t.ecc + (k - 0x800)]
  }

  /** Column c of a page programmed in parts: the last part that covers it decides, 0xff if there is none. */
  function ColumnByte(t: Ctrl, parts: seq<Part>, c: nat): byte
    requires forall p :: p in parts ==> PartFits(t, p)
  {
    if parts == [] then 0xff
    else
      var n := |parts| - 1;
      if Covers(parts[n], c) then SourceByte(t, parts[n], c) else ColumnByte(t, parts[..n], c)
  }

  lemma {:induction false} PartByte(t: Ctrl, p: Part, c: nat)
    requires PartFits(t, p) && Covers(p, c)
    ensures PartBytes(t, p)[c - p.col] == SourceByte(t, p, c)
  {
  }

  lemma {:induction false} PutByte(page: seq<byte>, at: nat, bytes: seq<byte>, c: nat)
    requires at + |bytes| <= |page| && c < |page|
    ensures Put(page, at, bytes)[c] == if at <= c < at + |bytes| then bytes[c - at] else page[c]
  {
  }

  lemma {:induction false} OverlayLast(t: Ctrl, page: seq<byte>, parts: seq<Part>)
    requires |page| == PAGE && parts != [] && forall p :: p in parts ==> PartFits(t, p)
    ensures var n := |parts| - 1;
            Overlay(t, page, parts) == Put(Overlay(t, page, parts[..n]), parts[n].col, PartBytes(t, parts[n]))
    decreases |parts|
  {
    var n := |parts| - 1;
    if n > 0 {
      assert parts[..n][1..] == parts[1..][..n - 1];
      OverlayLast(t, Put(page, parts[0].col, PartBytes(t, parts[0])), parts[1..]);
    }
  }

  /** The overlaid page, column by column. */
  lemma {:induction false} OverlayIsColumns(t: Ctrl, parts: seq<Part>, c: nat)
    requires c < PAGE && forall p :: p in parts ==> PartFits(t, p)
    ensures Overlay(t, Blank(), parts)[c] == ColumnByte(t, parts, c)
    decreases |parts|
  {
    if parts != [] {
      var n := |parts| - 1;
      var p := parts[n];
      assert p in parts;
      OverlayLast(t, Blank(), parts);
      OverlayIsColumns(t, parts[..n], c);
      PutByte(Overlay(t, Blank(), parts[..n]), p.col, PartBytes(t, p), c);
      if Covers(p, c) { PartByte(t, p, c); }
    }
  }

  // ----- What a program leaves in the image -----

  /** The bytes of a row. */
  function Page(c: Chip, row: nat): (r: seq<byte>)
    requires PageInside(c, row)
    ensures |r| == PAGE
  {
    var base: nat := row * c.fmt;
    c.image[base..base + PAGE]
  }

  /** Only the row changed. */
  predicate OnlyRow(c: Chip, d: Chip, row: nat)
    requires PageInside(c, row)
  {
    && d.fmt == c.fmt && d.device == c.device && |d.image| == |c.image|
    && d.image[..row * c.fmt] == c.image[..row * c.fmt]
    && d.image[row * c.fmt + PAGE..] == c.image[row * c.fmt + PAGE..]
  }

  /** Programming in parts, whatever the page held: a bit of the row stays set exactly when it was set and the last
      part that covers its column has it set; every other byte of the image is kept. */
  lemma {:induction false} ProgramBits(t: Ctrl, row: nat, first: Part, more: seq<Part>) returns (u: Ctrl)
    requires Ready(t) && PageInside(t.chip, row)
    requires PartFits(t, first) && forall p :: p in more ==> PartFits(t, p)
    ensures ScriptDefined(t, ProgramScript(row, first, more)) && u == Script(t, ProgramScript(row, first, more))
    ensures OnlyRow(t.chip, u.chip, row)
    ensures forall c: nat, k: nat :: c < PAGE ==>
              BitOf(Page(u.chip, row)[c], k)
              == (BitOf(Page(t.chip, row)[c], k) && BitOf(ColumnByte(t, [first] + more, c), k))
  {
    u := ProgramPage(t, row, first, more);
    var page := Overlay(t, Blank(), [first] + more);
    AndRow(t.chip, u.chip, row, page);
    forall c: nat, k: nat | c < PAGE
      ensures BitOf(Page(u.chip, row)[c], k)
           == (BitOf(Page(t.chip, row)[c], k) && BitOf(ColumnByte(t, [first] + more, c), k))
    {
      OverlayIsColumns(t, [first] + more, c);
      AndBits(Page(t.chip, row)[c], page[c], k);
    }
  }

  lemma {:induction false} AndRow(c: Chip, d: Chip, row: nat, page: seq<byte>)
    requires PageInside(c, row) && |page| == PAGE && d.fmt == c.fmt && d.device == c.device
    requires d.image == AndAt(c.image, row * c.fmt, page)
    ensures OnlyRow(c, d, row)
    ensures forall k: nat :: k < PAGE ==> Page(d, row)[k] == And(Page(c, row)[k], page[k])
  {
    AndStretch(c.image, row * c.fmt, page);
  }

  lemma {:induction false} AndStretch(image: seq<byte>, base: nat, page: seq<byte>)
    requires |page| == PAGE && base + PAGE <= |image|
    ensures var r := AndAt(image, base, page);
            && r[..base] == image[..base] && r[base + PAGE..] == image[base + PAGE..]
            && forall k: nat :: k < PAGE ==>
                 r[base..base + PAGE][k] == And(image[base..base + PAGE][k], page[k])
  {
  }

  /** On an erased page that is the bytes themselves. */
  lemma {:induction false} ProgramBytes(t: Ctrl, row: nat, first: Part, more: seq<Part>) returns (u: Ctrl)
    requires Ready(t) && PageInside(t.chip, row) && Page(t.chip, row) == seq(PAGE, _ => 0xff)
    requires PartFits(t, first) && forall p :: p in more ==> PartFits(t, p)
    ensures ScriptDefined(t, ProgramScript(row, first, more)) && u == Script(t, ProgramScript(row, first, more))
    ensures Ready(u) && u.guest == t.guest && u.ecc == t.ecc && OnlyRow(t.chip, u.chip, row)
    ensures forall c: nat :: c < PAGE ==> Page(u.chip, row)[c] == ColumnByte(t, [first] + more, c)
  {
    assert Page(t.chip, row) == Blank();
    u := ProgramErased(t, row, first, more);
    var page := Overlay(t, Blank(), [first] + more);
    PutRow(t.chip, u.chip, row, page);
    forall c: nat | c < PAGE ensures Page(u.chip, row)[c] == ColumnByte(t, [first] + more, c) {
      OverlayIsColumns(t, [first] + more, c);
    }
  }

  lemma {:induction false} PutRow(c: Chip, d: Chip, row: nat, page: seq<byte>)
    requires PageInside(c, row) && |page| == PAGE && d.fmt == c.fmt && d.device == c.device
    requires d.image == Put(c.image, row * c.fmt, page)
    ensures OnlyRow(c, d, row) && Page(d, row) == page
  {
  }

  // ----- What a read leaves in guest memory -----

  /** A read of at most the data area puts its bytes at the destination and changes no other guest byte. */
  lemma {:induction false} ReadBytes(t: Ctrl, row: nat, col: half, dst: word, n: count) returns (v: Ctrl)
    requires Ready(t) && PageInside(t.chip, row) && 0 < n <= 0x800 && col + n <= PAGE && dst + n <= |t.guest|
    ensures ScriptDefined(t, ReadScript(row, col, dst, n, READ)) && v == Script(t, ReadScript(row, col, dst, n, READ))
    ensures v.chip.image == t.chip.image
    ensures v.guest == t.guest[..dst] + Page(t.chip, row)[col..col + n] + t.guest[dst + n..]
  {
    v := ReadBack(t, row, col, dst, n);
    Stretch(t.chip.image, row * t.chip.fmt, col, n);
  }

  lemma {:induction false} Stretch(image: seq<byte>, base: nat, col: nat, n: nat)
    requires base + PAGE <= |image| && col + n <= PAGE
    ensures image[base + col..base + col + n] == image[base..base + PAGE][col..col + n]
  {
    var x, y, z := image[base + col..base + col + n], image[base..base + PAGE][col..col + n], image[base..base + PAGE];
    forall k | 0 <= k < n ensures x[k] == y[k] { assert y[k] == z[col + k] == image[base + col + k]; }
    assert x == y;
  }

  /** A read of a whole page puts the data area at the destination and the spare area at the code register, the
      latter over the former where they overlap, and changes no other guest byte. */
  lemma {:induction false} ReadPageBytes(t: Ctrl, row: nat, dst: word) returns (v: Ctrl)
    requires Ready(t) && PageInside(t.chip, row) && dst + 0x800 <= |t.guest| && t.ecc + 0x40 <= |t.guest|
    ensures var s := ReadScript(row, 0, dst, 0x840, READ); ScriptDefined(t, s) && v == Script(t, s)
    ensures v.chip.image == t.chip.image && |v.guest| == |t.guest|
    ensures forall a :: 0 <= a < |t.guest| ==>
              v.guest[a] == if t.ecc <= a < t.ecc + 0x40 then Page(t.chip, row)[0x800 + (a - t.ecc)]
                            else if dst <= a < dst + 0x800 then Page(t.chip, row)[a - dst]
                            else t.guest[a]
  {
    v := ReadBack(t, row, 0, dst, 0x840);
    DataAndSpare(t.guest, dst, t.ecc, Page(t.chip, row));
  }

  lemma {:induction false} DataAndSpare(guest: seq<byte>, dst: nat, ecc: nat, page: seq<byte>)
    requires dst + 0x800 <= |guest| && ecc + 0x40 <= |guest| && |page| == PAGE
    ensures forall a :: 0 <= a < |guest| ==>
              Put(Put(guest, dst, page[..0x800]), ecc, page[0x800..])[a]
              == if ecc <= a < ecc + 0x40 then page[0x800 + (a - ecc)]
                 else if dst <= a < dst + 0x800 then page[a - dst] else guest[a]
  {
  }

  // ----- Round trips -----

  /** An erased page programmed in parts and read back: each byte that reaches the guest is the guest byte that the
      last part covering its column was made from, and 0xff where no part was. */
  lemma {:induction false} RoundTripBytes(t: Ctrl, row: nat, first: Part, more: seq<Part>,
                                          col: half, dst: word, n: count)
    returns (u: Ctrl, v: Ctrl)
    requires Ready(t) && PageInside(t.chip, row) && 0 < n <= 0x800 && col + n <= PAGE && dst + n <= |t.guest|
    requires PartFits(t, first) && forall p :: p in more ==> PartFits(t, p)
    requires Page(t.chip, row) == seq(PAGE, _ => 0xff)
    ensures ScriptDefined(t, ProgramScript(row, first, more)) && u == Script(t, ProgramScript(row, first, more))
    ensures ScriptDefined(u, ReadScript(row, col, dst, n, READ)) && v == Script(u, ReadScript(row, col, dst, n, READ))
    ensures |v.guest| == |t.guest| && v.guest[..dst] == t.guest[..dst] && v.guest[dst + n..] == t.guest[dst + n..]
    ensures forall c: nat :: col <= c < col + n ==> v.guest[dst..dst + n][c - col] == ColumnByte(t, [first] + more, c)
  {
    u := ProgramBytes(t, row, first, more);
    v := ReadBytes(u, row, col, dst, n);
    Middle(t.guest, v.guest, dst, Page(u.chip, row)[col..col + n]);
  }

  lemma {:induction false} Middle(guest: seq<byte>, after: seq<byte>, dst: nat, bytes: seq<byte>)
    requires dst + |bytes| <= |guest| && after == guest[..dst] + bytes + guest[dst + |bytes|..]
    ensures |after| == |guest| && after[dst..dst + |bytes|] == bytes
    ensures after[..dst] == guest[..dst] && after[dst + |bytes|..] == guest[dst + |bytes|..]
  {
  }

  /** A whole page in one order: the data area comes from the source and the spare area from the code register. */
  lemma {:induction false} WholePage(t: Ctrl, row: nat, src: word) returns (u: Ctrl)
    requires Ready(t) && PageInside(t.chip, row) && src + 0x800 <= |t.guest| && t.ecc + 0x40 <= |t.guest|
    requires Page(t.chip, row) == seq(PAGE, _ => 0xff)
    ensures var s := ProgramScript(row, Part(0, src, 0x840), []); ScriptDefined(t, s) && u == Script(t, s)
    ensures OnlyRow(t.chip, u.chip, row)
    ensures Page(u.chip, row) == t.guest[src..src + 0x800] + t.guest[t.ecc..t.ecc + 0x40]
  {
    var p := Part(0, src, 0x840);
    u := ProgramBytes(t, row, p, []);
    var page, want := Page(u.chip, row), t.guest[src..src + 0x800] + t.guest[t.ecc..t.ecc + 0x40];
    forall c: nat | c < PAGE ensures page[c] == want[c] { OnlyPart(t, p, c); }
    assert page == want;
  }

  lemma {:induction false} OnlyPart(t: Ctrl, p: Part, c: nat)
    requires PartFits(t, p)
    ensures ColumnByte(t, [p] + [], c) == if Covers(p, c) then SourceByte(t, p, c) else 0xff
  {
    assert [p] + [] == [p] && [p][..0] == [];
  }

  /** A part of at most the data area, in one order: the source bytes from the column on, 0xff elsewhere. */
  lemma {:induction false} OnePart(t: Ctrl, row: nat, col: half, src: word, n: count) returns (u: Ctrl)
    requires Ready(t) && PageInside(t.chip, row) && n <= 0x800 && col + n <= PAGE && src + n <= |t.guest|
    requires Page(t.chip, row) == seq(PAGE, _ => 0xff)
    ensures var s := ProgramScript(row, Part(col, src, n), []); ScriptDefined(t, s) && u == Script(t, s)
    ensures OnlyRow(t.chip, u.chip, row)
    ensures Page(u.chip, row) == seq(col, _ => 0xff) + t.guest[src..src + n] + seq(PAGE - col - n, _ => 0xff)
  {
    var p := Part(col, src, n);
    u := ProgramBytes(t, row, p, []);
    var page := Page(u.chip, row);
    var want := seq(col, _ => 0xff) + t.guest[src..src + n] + seq(PAGE - col - n, _ => 0xff);
    forall c: nat | c < PAGE ensures page[c] == want[c] { OnlyPart(t, p, c); }
    assert page == want;
  }
}
