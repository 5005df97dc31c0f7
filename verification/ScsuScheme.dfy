// What the bytes of the compressor mean, number by number: the tags and windows of section 6 of Unicode
// Technical Standard #6 that it uses.
module ScsuScheme {
  import opened Bytes
  import opened Utf8
  import opened Scsu
  import opened ScsuProperties

  /* ----- reading: one round after the other, whatever follows ----- */

  lemma DecodesFrom(m: Mode, front: seq<byte>, rest: seq<byte>, emitted: seq<nat>, next: Mode)
    requires m.Valid() && next.Valid() && front != []
    requires DecodeStep(m, front + rest) == Some(Step(|front|, emitted, next))
    ensures Decode(m, front + rest) == Prepend(emitted, Decode(next, rest))
  {
    DecodeAfter(m, front, rest, Step(|front|, emitted, next));
  }

  // Decompression starts in single-byte mode with the first window.
  lemma Beginning(s: seq<byte>)
    ensures Decompressed(s) == match Decode(Mode(false, 0), s) case None => None case Some(cs) => Some(Write(cs))
    ensures forall m: Mode :: m.Valid() ==> Decode(m, []) == Some([])
  {}

  // In single-byte mode, bytes that are no tags stand for themselves.
  lemma PlainBytes(m: Mode, b: byte, rest: seq<byte>)
    requires m.Valid() && !m.unicode && (b == 0x00 || 0x09 <= b <= 0x0D || 0x18 <= b <= 0x7F)
    ensures Decode(m, [b] + rest) == Prepend([b], Decode(m, rest))
  {
    DecodesFrom(m, [b], rest, [b], m);
  }

  // The high half stands for the selected window.
  lemma WindowBytes(m: Mode, b: byte, rest: seq<byte>)
    requires m.Valid() && !m.unicode && b >= 0x80
    ensures var start := if m.window == 0 then 0x0080 else if m.window == 1 then 0x00C0
                         else if m.window == 2 then 0x0400 else if m.window == 3 then 0x0600
                         else if m.window == 4 then 0x0900 else if m.window == 5 then 0x3040
                         else if m.window == 6 then 0x30A0 else 0xFF00;
            Decode(m, [b] + rest) == Prepend([start + (b - 0x80)], Decode(m, rest))
  {
    DecodesFrom(m, [b], rest, [OFFSETS[m.window] + (b - 0x80)], m);
  }

  // Eight tags select a window in either mode.
  lemma SelectTags(m: Mode, w: nat, rest: seq<byte>)
    requires m.Valid() && w < 8
    ensures !m.unicode ==> Decode(m, [0x10 + w] + rest) == Decode(Mode(false, w), rest)
    ensures m.unicode ==> Decode(m, [0xE0 + w] + rest) == Decode(Mode(false, w), rest)
  {
    TagDecodes(m, if m.unicode then 0xE0 + w else 0x10 + w, Mode(false, w), rest);
  }

  // Eight tags quote one character: the low half from the static windows, and the high half above the dynamic
  // ones, without taking off 0x80.
  lemma QuoteTags(m: Mode, w: nat, b: byte, rest: seq<byte>)
    requires m.Valid() && !m.unicode && w < 8
    ensures var low := if w == 0 then 0x0000 else if w == 1 then 0x0080 else if w == 2 then 0x0100
                       else if w == 3 then 0x0300 else if w == 4 then 0x2000 else if w == 5 then 0x2080
                       else if w == 6 then 0x2100 else 0x3000;
            var high := if w == 0 then 0x0080 else if w == 1 then 0x00C0 else if w == 2 then 0x0400
                        else if w == 3 then 0x0600 else if w == 4 then 0x0900 else if w == 5 then 0x3040
                        else if w == 6 then 0x30A0 else 0xFF00;
            Decode(m, [0x01 + w, b] + rest) == Prepend([b + if b < 0x80 then low else high], Decode(m, rest))
  {
    DecodesFrom(m, [0x01 + w, b], rest, [b + OFFSETS[w + if b < 0x80 then 8 else 0]], m);
  }

  // Units in two bytes: quoted in single-byte mode, and in Unicode mode, to which a tag leads.
  lemma UnitTags(m: Mode, h: byte, l: byte, rest: seq<byte>)
    requires m.Valid()
    ensures !m.unicode ==> Decode(m, [0x0E, h, l] + rest) == Prepend([256 * h + l], Decode(m, rest))
    ensures !m.unicode ==> Decode(m, [0x0F] + rest) == Decode(Mode(true, m.window), rest)
    ensures m.unicode ==> Decode(m, [0xF0, h, l] + rest) == Prepend([256 * h + l], Decode(m, rest))
    ensures m.unicode && !(0xE0 <= h <= 0xE7) && h != 0xF0 && !(0xD8 <= h <= 0xDB) ==>
              Decode(m, [h, l] + rest) == Prepend([256 * h + l], Decode(m, rest))
  {
    if m.unicode {
      DecodesFrom(m, [0xF0, h, l], rest, [256 * h + l], m);
      if !(0xE0 <= h <= 0xE7) && h != 0xF0 && !(0xD8 <= h <= 0xDB) {
        DecodesFrom(m, [h, l], rest, [256 * h + l], m);
      }
    } else {
      DecodesFrom(m, [0x0E, h, l], rest, [256 * h + l], m);
      TagDecodes(m, 0x0F, Mode(true, m.window), rest);
    }
  }

  // Two units of a surrogate pair are one character.
  lemma PairBytes(m: Mode, c: nat, rest: seq<byte>)
    requires m.Valid() && m.unicode && 0x10000 <= c <= 0x10FFFF
    ensures var high, low := 0xD800 + (c - 0x10000) / 0x400, 0xDC00 + (c - 0x10000) % 0x400;
            Decode(m, [high / 256, high % 256, low / 256, low % 256] + rest) == Prepend([c], Decode(m, rest))
  {
    var high, low := 0xD800 + (c - 0x10000) / 0x400, 0xDC00 + (c - 0x10000) % 0x400;
    PairOfUnits(c);
    TwoBytes(high);
    TwoBytes(low);
    var front := [high / 256, high % 256, low / 256, low % 256];
    PairStep(m, front + rest, high, low);
    hide Pair, DecodeStep, Decode, Unit;
    DecodesFrom(m, front, rest, [c], m);
  }

  lemma TwoBytes(u: nat)
    requires 0xD800 <= u <= 0xDFFF
    ensures 256 * (u / 256) + u % 256 == u && 0xD8 <= u / 256 <= 0xDF && (u < 0xDC00 ==> u / 256 < 0xDC)
  {}

  lemma PairStep(m: Mode, s: seq<byte>, high: nat, low: nat)
    requires m.Valid() && m.unicode && |s| >= 4 && 0xD8 <= s[0] < 0xDC && 0xD800 <= high && low <= 0xFFFF
    requires high == Unit(s, 0) && low == Unit(s, 2)
    ensures DecodeStep(m, s) == Some(Step(4, [Pair(high, low)], m))
  {
    hide Pair;
  }

  // A window tag and one byte: one character.
  lemma TagAndByte(b: byte)
    requires b >= 0x80
    ensures Decompressed([0x10, b]) == Some(WriteUtf8(0x0000 + b))
    ensures Decompressed([0x11, b]) == Some(WriteUtf8(0x0040 + b))
    ensures Decompressed([0x12, b]) == Some(WriteUtf8(0x0380 + b))
    ensures Decompressed([0x13, b]) == Some(WriteUtf8(0x0580 + b))
    ensures Decompressed([0x14, b]) == Some(WriteUtf8(0x0880 + b))
    ensures Decompressed([0x15, b]) == Some(WriteUtf8(0x2FC0 + b))
    ensures Decompressed([0x16, b]) == Some(WriteUtf8(0x3020 + b))
    ensures Decompressed([0x17, b]) == Some(WriteUtf8(0xFE80 + b))
  {
    hide Decompressed, WriteUtf8;
    OneCharacter(0, b);
    OneCharacter(1, b);
    OneCharacter(2, b);
    OneCharacter(3, b);
    OneCharacter(4, b);
    OneCharacter(5, b);
    OneCharacter(6, b);
    OneCharacter(7, b);
  }

  lemma OneCharacter(w: nat, b: byte)
    requires w < 8 && b >= 0x80
    ensures Decompressed([0x10 + w, b]) == Some(WriteUtf8(OFFSETS[w] + (b - 0x80)))
  {
    hide WriteUtf8, DecodeStep;
    var c := OFFSETS[w] + (b - 0x80);
    SelectTags(START, w, [b]);
    LastByte(w, b);
    assert [0x10 + w] + [b] == [0x10 + w, b];
    assert Decode(START, [0x10 + w, b]) == Some([c]);
    OneWritten(c);
  }

  lemma OneWritten(c: nat)
    ensures Write([c]) == WriteUtf8(c)
  {
    hide WriteUtf8;
    assert [c][1..] == [];
  }

  lemma LastByte(w: nat, b: byte)
    requires w < 8 && b >= 0x80
    ensures Decode(Mode(false, w), [b]) == Some([OFFSETS[w] + (b - 0x80)])
  {
    var c := OFFSETS[w] + (b - 0x80);
    DecodesFrom(Mode(false, w), [b], [], [c], Mode(false, w));
    assert [b] + [] == [b] && [c] + [] == [c];
  }

  /* ----- writing ----- */

  lemma NextWritten(m: Mode, c: nat, cs: seq<nat>)
    requires m.Valid()
    ensures var (b, next) := EncodePoint(m, c); EncodeAll(m, [c] + cs) == b + EncodeAll(next, cs)
  {
    assert ([c] + cs)[1..] == cs;
  }

  // The window that the compressor takes for a character when none is selected.
  lemma WindowOf(c: nat)
    ensures FirstWindow(c, 0) ==
            if c <= 0x7F then 8
            else if c <= 0xFF then 0
            else if c <= 0x13F then 1
            else if c <= 0x17F then 10
            else if 0x300 <= c <= 0x37F then 11
            else if 0x400 <= c <= 0x47F then 2
            else if 0x600 <= c <= 0x67F then 3
            else if 0x900 <= c <= 0x97F then 4
            else if 0x2000 <= c <= 0x207F then 12
            else if 0x2080 <= c <= 0x20FF then 13
            else if 0x2100 <= c <= 0x217F then 14
            else if 0x3000 <= c <= 0x303F then 15
            else if 0x3040 <= c <= 0x30BF then 5
            else if 0x30C0 <= c <= 0x311F then 6
            else if 0xFF00 <= c <= 0xFF7F then 7
            else -1
  {
    var w := FirstWindow(c, 0);
    Offsets();
    hide *;
    Excluded(c, w, 0, 0x80);
    Excluded(c, w, 1, 0xC0);
    Excluded(c, w, 2, 0x400);
    Excluded(c, w, 3, 0x600);
    Excluded(c, w, 4, 0x900);
    Excluded(c, w, 5, 0x3040);
    Excluded(c, w, 6, 0x30A0);
    Excluded(c, w, 7, 0xFF00);
    Excluded(c, w, 8, 0);
    Excluded(c, w, 9, 0x80);
    Excluded(c, w, 10, 0x100);
    Excluded(c, w, 11, 0x300);
    Excluded(c, w, 12, 0x2000);
    Excluded(c, w, 13, 0x2080);
    Excluded(c, w, 14, 0x2100);
    Excluded(c, w, 15, 0x3000);
  }

  lemma Offsets()
    ensures |OFFSETS| == 16
    ensures OFFSETS[0] == 0x80 && OFFSETS[1] == 0xC0 && OFFSETS[2] == 0x400 && OFFSETS[3] == 0x600
    ensures OFFSETS[4] == 0x900 && OFFSETS[5] == 0x3040 && OFFSETS[6] == 0x30A0 && OFFSETS[7] == 0xFF00
    ensures OFFSETS[8] == 0 && OFFSETS[9] == 0x80 && OFFSETS[10] == 0x100 && OFFSETS[11] == 0x300
    ensures OFFSETS[12] == 0x2000 && OFFSETS[13] == 0x2080 && OFFSETS[14] == 0x2100 && OFFSETS[15] == 0x3000
  {}

  lemma Excluded(c: nat, w: int, j: nat, start: nat)
    requires w == FirstWindow(c, 0) && j < 16 == |OFFSETS| && OFFSETS[j] == start
    ensures w == j ==> start <= c <= start + 0x7F
    ensures w == -1 || j < w ==> !(start <= c <= start + 0x7F)
  {
    hide FirstWindow;
    assert w == -1 || j < w ==> !InWindow(OFFSETS[j], c);
  }

  // ASCII costs a byte; control characters but NUL, TAB, LF and CR are quoted. A tag leads back from Unicode mode.
  lemma AsciiWritten(m: Mode, c: nat, cs: seq<nat>)
    requires m.Valid() && c <= 0x7F
    ensures var tag := if m.unicode then [0xE0 + m.window] else [];
            var b := if c >= 0x20 || c == 0x00 || c == 0x09 || c == 0x0A || c == 0x0D then [c] else [0x01, c];
            EncodeAll(m, [c] + cs) == tag + b + EncodeAll(Mode(false, m.window), cs)
  {
    hide FirstWindow;
    NextWritten(m, c, cs);
  }

  // The bytes of a character at the beginning of a text: the high half for the first window, a tag and a byte for
  // the other windows, a unit after a tag for all other characters.
  function UnitBytes(c: nat): (r: seq<byte>)
    requires c <= 0xFFFF
  {
    if c <= 0x7F then
      if c >= 0x20 || c == 0x00 || c == 0x09 || c == 0x0A || c == 0x0D then [c] else [0x01, c]
    else if c <= 0xFF then [c]
    else if c <= 0x13F then [0x11, c - 0x40]
    else if c <= 0x17F then [0x03, c - 0x100]
    else if 0x300 <= c <= 0x37F then [0x04, c - 0x300]
    else if 0x400 <= c <= 0x47F then [0x12, c - 0x380]
    else if 0x600 <= c <= 0x67F then [0x13, c - 0x580]
    else if 0x900 <= c <= 0x97F then [0x14, c - 0x880]
    else if 0x2000 <= c <= 0x207F then [0x05, c - 0x2000]
    else if 0x2080 <= c <= 0x20FF then [0x06, c - 0x2080]
    else if 0x2100 <= c <= 0x217F then [0x07, c - 0x2100]
    else if 0x3000 <= c <= 0x303F then [0x08, c - 0x3000]
    else if 0x3040 <= c <= 0x30BF then [0x15, c - 0x2FC0]
    else if 0x30C0 <= c <= 0x311F then [0x16, c - 0x3020]
    else if 0xFF00 <= c <= 0xFF7F then [0x17, c - 0xFE80]
    else if c == 0xFEFF then [0x0E, 0xFE, 0xFF]
    else if 0xE000 <= c <= 0xF2FF then [0x0F, 0xF0, c / 256, c % 256]
    else [0x0F, c / 256, c % 256]
  }

  // How a text of one character is compressed.
  lemma CharacterWritten(c: nat)
    requires IsScalar(c)
    ensures Compressed(WriteUtf8(c)) ==
            if c <= 0xFFFF then UnitBytes(c)
            else
              var high, low := 0xD800 + (c - 0x10000) / 0x400, 0xDC00 + (c - 0x10000) % 0x400;
              [0x0F, high / 256, high % 256, low / 256, low % 256]
  {
    OneEncoded(c);
    assert c < 0xD800 || 0xDFFF < c <= 0x10FFFF;
    hide *;
    if c > 0xFFFF {
      SupplementaryWritten(c);
    } else {
      UnitWritten(c);
    }
  }

  lemma UnitWritten(c: nat)
    requires c <= 0xFFFF && (c < 0xD800 || c > 0xDFFF)
    ensures EncodePoint(START, c).0 == UnitBytes(c)
  {
    WindowOf(c);
    hide FirstWindow;
  }

  lemma OneEncoded(c: nat)
    requires IsScalar(c)
    ensures Compressed(WriteUtf8(c)) == EncodePoint(START, c).0
  {
    OneRead(c);
    hide EncodePoint, WriteUtf8, CodePoints;
    NextWritten(START, c, []);
    assert [c] + [] == [c];
  }

  lemma OneRead(c: nat)
    requires IsScalar(c)
    ensures CodePoints(WriteUtf8(c)) == [c]
  {
    ReadWrite(c, []);
    assert WriteUtf8(c) + [] == WriteUtf8(c) && WriteUtf8(c)[|WriteUtf8(c)|..] == [];
    hide WriteUtf8, Read;
  }

  lemma SupplementaryWritten(c: nat)
    requires 0xFFFF < c <= 0x10FFFF
    ensures var high, low := 0xD800 + (c - 0x10000) / 0x400, 0xDC00 + (c - 0x10000) % 0x400;
            EncodePoint(START, c).0 == [0x0F, high / 256, high % 256, low / 256, low % 256]
  {
    NoWindowForSurrogates(HighUnit(c));
    NoWindowForSurrogates(LowUnit(c));
    hide FirstWindow;
  }

  /* ----- texts inside one window ----- */

  // Where the dynamic windows start.
  function WindowStart(w: nat): (start: nat)
    requires w < 8
  {
    if w == 0 then 0x0080 else if w == 1 then 0x00C0 else if w == 2 then 0x0400 else if w == 3 then 0x0600
    else if w == 4 then 0x0900 else if w == 5 then 0x3040 else if w == 6 then 0x30A0 else 0xFF00
  }

  predicate Inside(cs: seq<nat>, w: nat)
    requires w < 8
  {
    forall i :: 0 <= i < |cs| ==> WindowStart(w) <= cs[i] <= WindowStart(w) + 0x7F
  }

  // A character of a window costs one byte if it is in the selected one, and else a tag for the first window that
  // has it.
  lemma WindowCharacter(m: Mode, c: nat, w: nat, cs: seq<nat>)
    requires m.Valid() && w < 8 && WindowStart(w) <= c <= WindowStart(w) + 0x7F
    ensures var first := if w == 1 && c <= 0xFF then 0 else if w == 6 && c <= 0x30BF then 5 else w;
            var b := EncodeAll(m, [c] + cs);
            if !m.unicode && WindowStart(m.window) <= c <= WindowStart(m.window) + 0x7F
            then b == [0x80 + (c - WindowStart(m.window))] + EncodeAll(m, cs)
            else b == [if m.unicode then 0xE0 + first else 0x10 + first, 0x80 + (c - WindowStart(first))]
                      + EncodeAll(Mode(false, first), cs)
  {
    var first := if w == 1 && c <= 0xFF then 0 else if w == 6 && c <= 0x30BF then 5 else w;
    FirstOf(c, w);
    UnitInWindow(m, c, first);
    NextWritten(m, c, cs);
    Starts(m.window);
    Starts(first);
    hide FirstWindow, EncodeAll, EncodePoint, WindowStart;
  }

  lemma Starts(w: nat)
    requires w < 8
    ensures WindowStart(w) == OFFSETS[w]
  {}

  lemma FirstOf(c: nat, w: nat)
    requires w < 8 && WindowStart(w) <= c <= WindowStart(w) + 0x7F
    ensures FirstWindow(c, 0) == if w == 1 && c <= 0xFF then 0 else if w == 6 && c <= 0x30BF then 5 else w
    ensures 0x7F < c <= 0xFFFF
  {
    WindowOf(c);
    hide FirstWindow;
  }

  lemma UnitInWindow(m: Mode, c: nat, first: nat)
    requires m.Valid() && 0x7F < c <= 0xFFFF && FirstWindow(c, 0) == first < 8
    ensures EncodePoint(m, c) ==
            if !m.unicode && InWindow(OFFSETS[m.window], c) then ([0x80 + (c - OFFSETS[m.window])], m)
            else ([if m.unicode then 0xE0 + first else 0x10 + first, 0x80 + (c - OFFSETS[first])], Mode(false, first))
  {
    hide FirstWindow;
  }

  // Once the window is selected every character is one byte, its place in the upper half.
  lemma {:induction false} SelectedText(w: nat, cs: seq<nat>)
    requires w < 8 && Inside(cs, w)
    ensures var b := EncodeAll(Mode(false, w), cs);
            |b| == |cs| && forall i :: 0 <= i < |cs| ==> b[i] == 0x80 + (cs[i] - WindowStart(w))
  {
    if cs != [] {
      assert cs == [cs[0]] + cs[1..];
      WindowCharacter(Mode(false, w), cs[0], w, cs[1..]);
      SelectedText(w, cs[1..]);
    }
  }

  // Six of the windows cost one tag at most, whatever is selected before.
  lemma {:induction false} OneTag(m: Mode, w: nat, cs: seq<nat>)
    requires m.Valid() && w < 8 && w != 1 && w != 6 && Inside(cs, w)
    ensures |cs| <= |EncodeAll(m, cs)| <= |cs| + 1
    decreases |cs|
  {
    if cs != [] {
      assert cs == [cs[0]] + cs[1..];
      TailInside(cs, w);
      WindowCharacter(m, cs[0], w, cs[1..]);
      SelectedText(w, cs[1..]);
      hide EncodeAll, Inside;
      OneTag(m, w, cs[1..]);
    }
  }

  // The windows 1 and 6 begin with characters that the window before them has too. A text inside one of them
  // costs a second tag exactly if neither window is selected, the first character is such a one, and not all are.
  lemma {:induction false} OverlappingText(m: Mode, w: nat, cs: seq<nat>)
    requires m.Valid() && (w == 1 || w == 6) && cs != [] && Inside(cs, w)
    ensures var last := if w == 1 then 0xFF else 0x30BF;
            |EncodeAll(m, cs)| == |cs| +
              if !m.unicode && m.window == w then 0
              else if !m.unicode && m.window == w - 1 then (if UpTo(cs, last) then 0 else 1)
              else if cs[0] <= last && !UpTo(cs, last) then 2 else 1
    decreases |cs|
  {
    var last := if w == 1 then 0xFF else 0x30BF;
    var c, rest := cs[0], cs[1..];
    assert cs == [c] + rest;
    TailInside(cs, w);
    OverlapCost(m, c, w, rest);
    SelectedText(w, rest);
    UpToTail(cs, last);
    hide EncodeAll, UpTo, Inside, WindowStart;
    if rest == [] {
      NothingWritten();
    } else {
      OverlappingText(Mode(false, w - 1), w, rest);
    }
  }

  lemma OverlapCost(m: Mode, c: nat, w: nat, cs: seq<nat>)
    requires m.Valid() && (w == 1 || w == 6) && WindowStart(w) <= c <= WindowStart(w) + 0x7F
    ensures var before := c <= if w == 1 then 0xFF else 0x30BF;
            |EncodeAll(m, [c] + cs)| ==
              if !m.unicode && (m.window == w || (m.window == w - 1 && before)) then 1 + |EncodeAll(m, cs)|
              else if before then 2 + |EncodeAll(Mode(false, w - 1), cs)| else 2 + |EncodeAll(Mode(false, w), cs)|
  {
    WindowCharacter(m, c, w, cs);
    Selected(m.window, c, w);
    hide EncodeAll, WindowStart;
  }

  lemma Selected(v: nat, c: nat, w: nat)
    requires v < 8 && (w == 1 || w == 6) && WindowStart(w) <= c <= WindowStart(w) + 0x7F
    ensures WindowStart(v) <= c <= WindowStart(v) + 0x7F <==>
            v == w || (v == w - 1 && c <= if w == 1 then 0xFF else 0x30BF)
  {}

  predicate UpTo(cs: seq<nat>, last: nat) { forall i :: 0 <= i < |cs| ==> cs[i] <= last }

  lemma UpToTail(cs: seq<nat>, last: nat)
    requires cs != []
    ensures UpTo(cs, last) <==> cs[0] <= last && UpTo(cs[1..], last)
  {
    assert cs == [cs[0]] + cs[1..];
  }

  lemma TailInside(cs: seq<nat>, w: nat)
    requires cs != [] && w < 8 && Inside(cs, w)
    ensures WindowStart(w) <= cs[0] <= WindowStart(w) + 0x7F && Inside(cs[1..], w)
  {}

  lemma NothingWritten()
    ensures forall m: Mode :: m.Valid() ==> EncodeAll(m, []) == []
  {}
}
