// What the compressor promises: lossless on exactly the well-formed UTF-8 strings, with bounded output.
module ScsuProperties {
  import opened Arithmetic
  import opened Bytes
  import opened Utf8
  import opened Scsu

  /* ----- simulation: the decoder follows the encoder's state ----- */

  // The units after which the decoder takes two more bytes to complete a pair.
  predicate IsHighSurrogate(c: int) { 0xD800 <= c < 0xDC00 }

  predicate Below(cs: seq<nat>, n: nat) { forall i :: 0 <= i < |cs| ==> cs[i] < n }

  predicate HasHighSurrogate(cs: seq<nat>) { exists i :: 0 <= i < |cs| && IsHighSurrogate(cs[i]) }

  function Prepend(front: seq<nat>, rest: Option<seq<nat>>): (r: Option<seq<nat>>) {
    match rest
    case None => None
    case Some(cs) => Some(front + cs)
  }

  // One decoding round on its own bytes, whatever follows them.
  lemma DecodeAfter(m: Mode, front: seq<byte>, rest: seq<byte>, step: Step)
    requires m.Valid() && step.mode.Valid() && front != [] && step.used == |front|
    requires DecodeStep(m, front + rest) == Some(step)
    ensures Decode(m, front + rest) == Prepend(step.emitted, Decode(step.mode, rest))
  {
    hide DecodeStep;
    assert (front + rest)[|front|..] == rest;
  }

  // A tag that only changes the state.
  lemma TagDecodes(m: Mode, tag: byte, m1: Mode, tail: seq<byte>)
    requires m.Valid() && m1.Valid()
    requires m.unicode ==> UC0 <= tag < UC0 + 8 && m1 == Mode(false, tag - UC0)
    requires !m.unicode && tag == SCU ==> m1 == m.(unicode := true)
    requires !m.unicode && tag != SCU ==> SC0 <= tag < SC0 + 8 && m1 == m.(window := tag - SC0)
    ensures Decode(m, [tag] + tail) == Decode(m1, tail)
  {
    DecodeAfter(m, [tag], tail, Step(1, [], m1));
    if Decode(m1, tail).Some? {
      assert [] + Decode(m1, tail).value == Decode(m1, tail).value;
    }
  }

  lemma AsciiDecodes(m: Mode, c: nat, rest: seq<byte>)
    requires m.Valid() && !m.unicode && c <= 0x7F
    ensures Decode(m, Ascii(c) + rest) == Prepend([c], Decode(m, rest))
  {
    DecodeAfter(m, Ascii(c), rest, Step(|Ascii(c)|, [c], m));
  }

  lemma WindowDecodes(m: Mode, c: nat, rest: seq<byte>)
    requires m.Valid() && !m.unicode && InWindow(OFFSETS[m.window], c)
    ensures Decode(m, [0x80 + (c - OFFSETS[m.window])] + rest) == Prepend([c], Decode(m, rest))
  {
    DecodeAfter(m, [0x80 + (c - OFFSETS[m.window])], rest, Step(1, [c], m));
  }

  lemma UnicodeUnitDecodes(m: Mode, c: nat, rest: seq<byte>)
    requires m.Valid() && m.unicode && c <= 0xFFFF && !IsHighSurrogate(c)
    ensures Decode(m, UnicodeUnit(c) + rest) == Prepend([c], Decode(m, rest))
  {
    var u := UnicodeUnit(c);
    assert forall i :: 0 <= i < |u| ==> (u + rest)[i] == u[i];
    DecodeAfter(m, u, rest, Step(|u|, [c], m));
  }

  // After the bytes of one unit the decoder has emitted it and is in the encoder's mode.
  lemma UnitDecodes(m: Mode, c: nat, rest: seq<byte>)
    requires m.Valid() && c <= 0xFFFF && !IsHighSurrogate(c)
    ensures var (b, m1) := EncodeUnit(m, c); Decode(m, b + rest) == Prepend([c], Decode(m1, rest))
  {
    hide Decode, DecodeStep, FirstWindow, Ascii, UnicodeUnit;
    var (b, m1) := EncodeUnit(m, c);
    var w := FirstWindow(c, 0);
    if c <= 0x7F {
      AsciiDecodes(m1, c, rest);
      if m.unicode {
        TagDecodes(m, UC0 + m.window, m1, Ascii(c) + rest);
        assert b + rest == [UC0 + m.window] + (Ascii(c) + rest);
      } else {
        assert b == Ascii(c);
      }
    } else if m.unicode && !(0 <= w <= 7) {
      UnicodeUnitDecodes(m, c, rest);
    } else if !m.unicode && InWindow(OFFSETS[m.window], c) {
      WindowDecodes(m, c, rest);
    } else if 0 <= w <= 7 {
      WindowDecodes(m1, c, rest);
      TagDecodes(m, b[0], m1, [b[1]] + rest);
      assert b + rest == [b[0]] + ([b[1]] + rest);
    } else {
      QuotedUnitDecodes(m, c, rest);
    }
  }

  // The units outside every dynamic window, met in single-byte mode.
  lemma QuotedUnitDecodes(m: Mode, c: nat, rest: seq<byte>)
    requires m.Valid() && 0x7F < c <= 0xFFFF && !IsHighSurrogate(c)
    requires !m.unicode && !InWindow(OFFSETS[m.window], c) && !(0 <= FirstWindow(c, 0) <= 7)
    ensures var (b, m1) := EncodeUnit(m, c); Decode(m, b + rest) == Prepend([c], Decode(m1, rest))
  {
    hide Decode, FirstWindow, UnicodeUnit;
    var (b, m1) := EncodeUnit(m, c);
    if FirstWindow(c, 0) > 7 || c == 0xFEFF {
      DecodeAfter(m, b, rest, Step(|b|, [c], m));
    } else {
      UnicodeUnitDecodes(m1, c, rest);
      TagDecodes(m, SCU, m1, UnicodeUnit(c) + rest);
      assert b + rest == [SCU] + (UnicodeUnit(c) + rest);
    }
  }

  // Bitwise or of numbers without common bits is their sum.
  lemma {:induction false} OrIsSum(h: nat, low: nat, bits: nat, p: nat)
    requires p == Pow2(bits) && low < p
    ensures Or(h * p, low) == h * p + low
  {
    if bits > 0 && h > 0 && low > 0 {
      var q := Pow2(bits - 1);
      assert h * p == 2 * (h * q);
      OrIsSum(h, low / 2, bits - 1, q);
    }
  }

  lemma PairOfUnits(c: nat)
    requires 0xFFFF < c <= MAX_CODE_POINT
    ensures Pair(HighUnit(c), LowUnit(c)) == c
  {
    hide Or, Pow2;
    var h, low := (c - 0x10000) / 1024, (c - 0x10000) % 1024;
    Pow2Of10();
    OrIsSum(h, low, 10, 1024);
    assert h * 1024 + low == c - 0x10000;
  }

  lemma Pow2Of10()
    ensures Pow2(10) == 1024
  {
    assert Pow2(5) == 32;
  }

  lemma NoWindowForSurrogates(c: nat)
    requires IsSurrogate(c)
    ensures FirstWindow(c, 0) == -1
  {
    assert forall j :: 0 <= j < 16 ==> OFFSETS[j] + 0x7F < 0xD800 || 0xE000 <= OFFSETS[j];
  }

  lemma SupplementaryDecodes(m: Mode, c: nat, rest: seq<byte>)
    requires m.Valid() && 0xFFFF < c <= MAX_CODE_POINT
    ensures var (b, m1) := EncodePoint(m, c); Decode(m, b + rest) == Prepend([c], Decode(m1, rest))
  {
    hide Decode, FirstWindow, Pair;
    var high, low := HighUnit(c), LowUnit(c);
    NoWindowForSurrogates(high);
    NoWindowForSurrogates(low);
    assert !InWindow(OFFSETS[m.window], high);
    var (b, m1) := EncodePoint(m, c);
    var units := UnicodeUnit(high) + UnicodeUnit(low);
    PairOfUnits(c);
    assert Unit(units + rest, 0) == high && Unit(units + rest, 2) == low;
    DecodeAfter(m1, units, rest, Step(4, [c], m1));
    if m.unicode {
      assert b == units;
    } else {
      TagDecodes(m, SCU, m1, units + rest);
      assert b + rest == [SCU] + (units + rest);
    }
  }

  // Values above U+10FFFF are dropped by the encoder.
  function Kept(cs: seq<nat>): (r: seq<nat>) {
    if cs == [] then []
    else (if cs[0] <= MAX_CODE_POINT then [cs[0]] else []) + Kept(cs[1..])
  }

  lemma {:induction false} EncodedDecodes(m: Mode, cs: seq<nat>)
    requires m.Valid() && !HasHighSurrogate(cs)
    ensures Decode(m, EncodeAll(m, cs)) == Some(Kept(cs))
    decreases cs
  {
    hide EncodeUnit, DecodeStep;
    if cs != [] {
      var c := cs[0];
      var (b, m1) := EncodePoint(m, c);
      var rest := EncodeAll(m1, cs[1..]);
      TailHasHigh(cs);
      EncodedDecodes(m1, cs[1..]);
      if c > MAX_CODE_POINT {
        assert b + rest == rest;
        assert [] + Kept(cs[1..]) == Kept(cs[1..]);
      } else if c > 0xFFFF {
        SupplementaryDecodes(m, c, rest);
      } else {
        UnitDecodes(m, c, rest);
      }
    }
  }

  /* ----- high surrogates ----- */

  lemma {:induction false} KeptEncodes(m: Mode, cs: seq<nat>)
    requires m.Valid()
    ensures EncodeAll(m, Kept(cs)) == EncodeAll(m, cs)
    decreases cs
  {
    hide EncodeUnit;
    if cs != [] {
      var m1 := EncodePoint(m, cs[0]).1;
      KeptEncodes(m1, cs[1..]);
      if cs[0] <= MAX_CODE_POINT {
        assert Kept(cs)[1..] == Kept(cs[1..]);
      } else {
        assert [] + EncodeAll(m, cs[1..]) == EncodeAll(m, cs[1..]);
        assert [] + Kept(cs[1..]) == Kept(cs[1..]);
      }
    }
  }

  lemma {:induction false} KeptPoints(cs: seq<nat>)
    ensures Below(Kept(cs), MAX_CODE_POINT + 1)
    ensures HasHighSurrogate(cs) ==> HasHighSurrogate(Kept(cs))
  {
    if cs != [] {
      KeptPoints(cs[1..]);
      TailHasHigh(cs);
      if HasHighSurrogate(cs[1..]) {
        var i :| 0 <= i < |Kept(cs[1..])| && IsHighSurrogate(Kept(cs[1..])[i]);
        assert IsHighSurrogate(Kept(cs)[if cs[0] <= MAX_CODE_POINT then i + 1 else i]);
      } else if IsHighSurrogate(cs[0]) {
        assert IsHighSurrogate(Kept(cs)[0]);
      }
    }
  }

  lemma {:induction false} OrBounds(a: nat, b: nat)
    ensures Or(a, b) <= a + b
    decreases a + b
  {
    if a > 0 && b > 0 {
      OrBounds(a / 2, b / 2);
    }
  }

  // A high surrogate makes a unit of the basic plane only together with one before the low surrogates.
  lemma PairOfBasic(high: nat, low: nat)
    requires IsHighSurrogate(high) && 0xDC00 <= low <= 0xFFFF
    ensures Pair(high, low) >= 0x10000
  {
    hide Or;
    OrBounds((high - 0xD800) * 1024, low - 0xDC00);
  }

  lemma PlainUnit(m: Mode, c: nat)
    requires m.Valid() && m.unicode && c <= 0xFFFF && EncodeUnit(m, c).0[..1] != []
    requires EncodeUnit(m, c).0[0] < 0xDC
    ensures EncodeUnit(m, c) == ([c / 256, c % 256], m) && c < 0xDC00
  {
    hide FirstWindow;
    if !(0xE000 <= c <= 0xF2FF) {
      assert UnicodeUnit(c) == [c / 256, c % 256];
    }
  }

  lemma UnitNotEmpty(m: Mode, c: nat)
    requires m.Valid() && c <= 0xFFFF
    ensures EncodeUnit(m, c).0 != []
  {}

  lemma EncodeBasic(m: Mode, cs: seq<nat>)
    requires m.Valid() && cs != [] && cs[0] <= 0xFFFF
    ensures var (b, m1) := EncodeUnit(m, cs[0]); EncodeAll(m, cs) == b + EncodeAll(m1, cs[1..])
  {}

  // In Unicode mode, output that starts with a unit before the low surrogates starts with the code point of
  // that unit, or with the first half of a supplementary one.
  lemma FirstUnit(m: Mode, cs: seq<nat>)
    requires m.Valid() && m.unicode && Below(cs, MAX_CODE_POINT + 1)
    requires |EncodeAll(m, cs)| >= 2 && Unit(EncodeAll(m, cs), 0) < 0xDC00
    ensures cs != []
    ensures cs[0] <= 0xFFFF ==> cs[0] < 0xDC00 && EncodeAll(m, cs)[2..] == EncodeAll(m, cs[1..])
    ensures cs[0] > 0xFFFF ==> EncodeAll(m, cs)[2..] == UnicodeUnit(LowUnit(cs[0])) + EncodeAll(m, cs[1..])
  {
    hide EncodeUnit, EncodePoint, UnicodeUnit, LowUnit, HighUnit;
    var c := cs[0];
    if c > 0xFFFF {
      EncodeSupplementary(m, cs);
    } else {
      EncodeBasic(m, cs);
      UnitNotEmpty(m, c);
      PlainUnit(m, c);
    }
  }

  lemma EncodeSupplementary(m: Mode, cs: seq<nat>)
    requires m.Valid() && m.unicode && cs != [] && 0xFFFF < cs[0] <= MAX_CODE_POINT
    ensures var tail := UnicodeUnit(LowUnit(cs[0])) + EncodeAll(m, cs[1..]);
            EncodeAll(m, cs) == UnicodeUnit(HighUnit(cs[0])) + tail && |UnicodeUnit(HighUnit(cs[0]))| == 2
  {
    hide EncodeUnit, UnicodeUnit, LowUnit, HighUnit;
    SurrogateUnit(m, HighUnit(cs[0]));
    SurrogateUnit(m, LowUnit(cs[0]));
    var high, low, tail := UnicodeUnit(HighUnit(cs[0])), UnicodeUnit(LowUnit(cs[0])), EncodeAll(m, cs[1..]);
    assert (high + low) + tail == high + (low + tail);
  }

  lemma SurrogateUnit(m: Mode, c: nat)
    requires m.Valid() && m.unicode && IsSurrogate(c)
    ensures EncodeUnit(m, c) == (UnicodeUnit(c), m) && |UnicodeUnit(c)| == 2
  {
    hide FirstWindow;
    NoWindowForSurrogates(c);
  }

  // After a high surrogate the decoder takes the next unit along, whatever it is.
  lemma HighDecodes(m: Mode, c: nat, rest: seq<byte>)
    requires m.Valid() && IsHighSurrogate(c)
    ensures var (b, m1) := EncodeUnit(m, c);
            && m1.unicode
            && Decode(m, b + rest) == if |rest| < 2 then None
               else Prepend([Pair(c, Unit(rest, 0))], Decode(m1, rest[2..]))
  {
    hide FirstWindow, Pair, Decode;
    NoWindowForSurrogates(c);
    assert !InWindow(OFFSETS[m.window], c);
    var (b, m1) := EncodeUnit(m, c);
    var u := UnicodeUnit(c);
    if !m.unicode {
      TagDecodes(m, SCU, m1, u + rest);
      assert b + rest == [SCU] + (u + rest);
    }
    PairDecodes(m1, c, rest);
  }

  lemma PairDecodes(m: Mode, c: nat, rest: seq<byte>)
    requires m.Valid() && IsHighSurrogate(c) && m.unicode
    ensures Decode(m, UnicodeUnit(c) + rest)
            == if |rest| < 2 then None else Prepend([Pair(c, Unit(rest, 0))], Decode(m, rest[2..]))
  {
    hide Pair;
    var u := UnicodeUnit(c);
    if |rest| >= 2 {
      assert u + rest == (u + rest[..2]) + rest[2..];
      assert Unit(u + rest, 0) == c && Unit(u + rest, 2) == Unit(rest, 0);
      DecodeAfter(m, u + rest[..2], rest[2..], Step(4, [Pair(c, Unit(rest, 0))], m));
    }
  }

  // Once the decoder has taken a unit too many it stays behind: it never catches up with the code points
  // `late` that it should have emitted before.
  lemma {:induction false} DecoderLags(m: Mode, cs: seq<nat>, late: seq<nat>)
    requires m.Valid() && Below(cs, MAX_CODE_POINT + 1)
    requires Below(late, 0xDC00)
    requires late != [] || HasHighSurrogate(cs)
    ensures Decode(m, EncodeAll(m, cs)) != Some(late + cs)
    decreases cs, 1
  {
    hide EncodeUnit, DecodeStep, Decode, Pair;
    if cs == [] {
      EmptyDecodes(m);
    } else if IsHighSurrogate(cs[0]) {
      LagsAtHigh(m, cs, late);
    } else if Decode(m, EncodeAll(m, cs)) == Some(late + cs) {
      var c := cs[0];
      var (b, m1) := EncodePoint(m, c);
      var rest := EncodeAll(m1, cs[1..]);
      if c > 0xFFFF {
        SupplementaryDecodes(m, c, rest);
      } else {
        UnitDecodes(m, c, rest);
      }
      assert (late + cs)[0] == c;
      assert (late + cs)[1..] == Decode(m1, rest).value;
      assert cs == [c] + cs[1..];
      TailHasHigh(cs);
      if late == [] {
        assert [] + cs[1..] == (late + cs)[1..];
        DecoderLags(m1, cs[1..], []);
      } else {
        assert (late + cs)[1..] == (late[1..] + [c]) + cs[1..];
        DecoderLags(m1, cs[1..], late[1..] + [c]);
      }
    }
  }

  lemma TailHasHigh(cs: seq<nat>)
    requires cs != []
    ensures HasHighSurrogate(cs) <==> IsHighSurrogate(cs[0]) || HasHighSurrogate(cs[1..])
  {
    if HasHighSurrogate(cs) && !IsHighSurrogate(cs[0]) {
      var i :| 0 <= i < |cs| && IsHighSurrogate(cs[i]);
      assert cs[1..][i - 1] == cs[i];
    }
  }

  lemma EmptyDecodes(m: Mode)
    requires m.Valid()
    ensures Decode(m, EncodeAll(m, [])) == Some([])
  {}

  lemma LagsAtHigh(m: Mode, cs: seq<nat>, late: seq<nat>)
    requires m.Valid() && cs != [] && IsHighSurrogate(cs[0]) && Below(cs, MAX_CODE_POINT + 1)
    requires Below(late, 0xDC00)
    ensures Decode(m, EncodeAll(m, cs)) != Some(late + cs)
    decreases cs, 0
  {
    hide EncodeUnit, EncodePoint, EncodeAll, DecodeStep, Decode, Pair, Prepend, Unit, UnicodeUnit, LowUnit, HighUnit,
         Below, HasHighSurrogate;
    var c := cs[0];
    var (b, m1) := EncodeUnit(m, c);
    var rest := EncodeAll(m1, cs[1..]);
    EncodeBasic(m, cs);
    HighDecodes(m, c, rest);
    if Decode(m, EncodeAll(m, cs)) == Some(late + cs) {
      var queue := (late + [c])[1..];
      Queued(late, cs, Pair(c, Unit(rest, 0)), Decode(m1, rest[2..]));
      if Unit(rest, 0) >= 0xDC00 {
        PairOfBasic(c, Unit(rest, 0));
      }
      TailBelow(cs, MAX_CODE_POINT + 1);
      FirstUnit(m1, cs[1..]);
      var next, after := cs[1], cs[2..];
      assert cs[1..] == [next] + after && cs[1..][1..] == after;
      assert queue + cs[1..] == (queue + [next]) + after;
      if next > 0xFFFF {
        LowFirst(m1, LowUnit(next), EncodeAll(m1, after), queue, next, after);
      } else {
        BelowSnoc(queue, next, 0xDC00);
        TailBelow(cs[1..], MAX_CODE_POINT + 1);
        DecoderLags(m1, after, queue + [next]);
      }
    }
  }

  lemma TailBelow(cs: seq<nat>, n: nat)
    requires cs != [] && Below(cs, n)
    ensures cs[0] < n && Below(cs[1..], n)
  {}

  lemma BelowSnoc(cs: seq<nat>, c: nat, n: nat)
    requires Below(cs, n) && c < n
    ensures Below(cs + [c], n)
  {}

  // What is missing after the decoder has emitted one unit for the first that it is late with.
  lemma Queued(late: seq<nat>, cs: seq<nat>, unit: nat, rest: Option<seq<nat>>)
    requires cs != [] && IsHighSurrogate(cs[0]) && Below(late, 0xDC00)
    requires Prepend([unit], rest) == Some(late + cs)
    ensures var queue := (late + [cs[0]])[1..];
            unit < 0xDC00 && Below(queue, 0xDC00) && rest == Some(queue + cs[1..])
  {
    var late', tail := late + [cs[0]], cs[1..];
    assert late + cs == late' + tail == [late'[0]] + (late'[1..] + tail);
    assert ([unit] + rest.value)[0] == unit && ([unit] + rest.value)[1..] == rest.value;
    assert ([late'[0]] + (late'[1..] + tail))[1..] == late'[1..] + tail;
  }

  lemma LowFirst(m: Mode, low: nat, rest: seq<byte>, queue: seq<nat>, next: nat, after: seq<nat>)
    requires m.Valid() && m.unicode && 0xDC00 <= low <= 0xFFFF < next && Below(queue, 0xDC00)
    ensures Decode(m, UnicodeUnit(low) + rest) != Some((queue + [next]) + after)
  {
    UnicodeUnitDecodes(m, low, rest);
    hide Decode;
    assert ((queue + [next]) + after)[0] != low;
  }

  /* ----- main results ----- */

  // Whatever the input bytes, the decoder finds the code points the reader found, exactly if no overlong
  // four-byte form smuggled in a high surrogate. It then writes them.
  lemma RoundTripOfCodePoints(s: seq<byte>)
    ensures Decode(START, Compressed(s)) == Some(Kept(CodePoints(s)))
            <==> !HasHighSurrogate(CodePoints(s))
    ensures !HasHighSurrogate(CodePoints(s)) ==>
              Decompressed(Compressed(s)) == Some(Write(Kept(CodePoints(s))))
  {
    var cs := CodePoints(s);
    if !HasHighSurrogate(cs) {
      EncodedDecodes(START, cs);
    } else {
      KeptPoints(cs);
      KeptEncodes(START, cs);
      DecoderLags(START, Kept(cs), []);
      assert [] + Kept(cs) == Kept(cs);
    }
  }

  lemma NoHighInScalars(cs: seq<nat>)
    requires forall c :: c in cs ==> IsScalar(c)
    ensures !HasHighSurrogate(cs)
  {
    assert forall i :: 0 <= i < |cs| ==> cs[i] in cs;
  }

  lemma {:induction false} KeptScalars(cs: seq<nat>)
    requires forall c :: c in cs ==> IsScalar(c)
    ensures Kept(cs) == cs
  {
    if cs != [] {
      assert IsScalar(cs[0]);
      KeptScalars(cs[1..]);
      assert cs == [cs[0]] + cs[1..];
    }
  }

  // The compressor is lossless on exactly the well-formed UTF-8 strings.
  lemma RoundTrip(s: seq<byte>)
    ensures Decompressed(Compressed(s)) == Some(s) <==> WellFormed(s)
  {
    hide CodePoints;
    if WellFormed(s) {
      WellFormedRewrites(s);
      NoHighInScalars(CodePoints(s));
      KeptScalars(CodePoints(s));
      RoundTripOfCodePoints(s);
    } else if Decode(START, Compressed(s)).Some? {
      WrittenIsWellFormed(Decode(START, Compressed(s)).value);
    }
  }

  // Decompression never produces malformed text, even from bytes the compressor did not make.
  lemma DecompressedIsWellFormed(s: seq<byte>)
    requires Decompressed(s).Some?
    ensures WellFormed(Decompressed(s).value)
  {
    WrittenIsWellFormed(Decode(START, s).value);
  }

  // Distinct well-formed strings compress to distinct byte strings.
  lemma CompressionInjective(s: seq<byte>, t: seq<byte>)
    requires WellFormed(s) && WellFormed(t) && Compressed(s) == Compressed(t)
    ensures s == t
  {
    RoundTrip(s);
    RoundTrip(t);
  }

  // The four bytes F0 8D A0 80, an overlong form of a surrogate, pass the reader unchecked:
  // decoding what they compress to would read past the end of the compressed bytes.
  lemma OverlongSurrogateBreaks()
    ensures Decompressed(Compressed([0xF0, 0x8D, 0xA0, 0x80])) == None
  {
    hide FirstWindow, Decode;
    var s: seq<byte> := [0xF0, 0x8D, 0xA0, 0x80];
    NoWindowForSurrogates(0xD800);
    assert CodePoints(s) == [0xD800] by {
      assert s[4..] == [];
    }
    var m := Mode(true, 0);
    assert UnicodeUnit(0xD800) == [0xD8, 0x00];
    assert EncodePoint(START, 0xD800) == ([SCU] + [0xD8, 0x00], m);
    assert EncodeAll(m, []) == [];
    assert Compressed(s) == [SCU] + [0xD8, 0x00];
    TagDecodes(START, SCU, m, [0xD8, 0x00]);
    UnfinishedPair(m);
  }

  lemma UnfinishedPair(m: Mode)
    requires m.Valid() && m.unicode
    ensures Decode(m, [0xD8, 0x00]) == None
  {}

  /* ----- size of the output ----- */

  function Potential(m: Mode): (r: nat) { if m.unicode then 1 else 0 }

  lemma UnitSize(m: Mode, c: nat)
    requires m.Valid() && c <= 0xFFFF
    ensures var (b, m1) := EncodeUnit(m, c);
            && |b| <= (if 0xE000 <= c <= 0xF2FF then 4 else 3)
            && |b| + Potential(m1) <= Potential(m) + (if c <= 0x7F then 2 else if c <= 0x7FF then 4 else 5)
            && (IsSurrogate(c) ==> m1.unicode && |b| + Potential(m) == 3)
  {
    hide FirstWindow;
    if IsSurrogate(c) {
      NoWindowForSurrogates(c);
      assert !InWindow(OFFSETS[m.window], c);
    }
  }

  // Three bytes for each byte the reader takes; two, in the amortised sense, if it is a character.
  lemma PointSize(m: Mode, s: seq<byte>)
    requires m.Valid() && s != []
    ensures var (c, n) := Read(s);
            var (b, m1) := EncodePoint(m, c);
            && |b| <= 3 * n
            && (IsUtf8Char(s[..n]) ==> |b| + Potential(m1) <= Potential(m) + 2 * n)
  {
    hide EncodeUnit;
    var (c, n) := Read(s);
    if 0xFFFF < c <= MAX_CODE_POINT {
      UnitSize(m, HighUnit(c));
      UnitSize(EncodeUnit(m, HighUnit(c)).1, LowUnit(c));
    } else if c <= 0xFFFF {
      UnitSize(m, c);
    }
    if IsUtf8Char(s[..n]) {
      WriteRead(s, n);
    }
  }

  lemma {:induction false} SizeFrom(m: Mode, s: seq<byte>)
    requires m.Valid()
    ensures |EncodeAll(m, CodePoints(s))| <= 3 * |s|
    ensures WellFormed(s) ==> |EncodeAll(m, CodePoints(s))| <= Potential(m) + 2 * |s|
    decreases |s|
  {
    hide Read, EncodePoint, IsUtf8Char;
    if s != [] {
      var (c, n) := Read(s);
      var m1 := EncodePoint(m, c).1;
      EncodeAllStep(m, s);
      PointSize(m, s);
      SizeFrom(m1, s[n..]);
      if WellFormed(s) {
        var k :| 1 <= k <= |s| && IsUtf8Char(s[..k]) && WellFormed(s[k..]);
        WriteRead(s, k);
      }
    }
  }

  // A buffer of three bytes per input byte is always enough, two for well-formed text.
  lemma CompressedSize(s: seq<byte>)
    ensures |Compressed(s)| <= 3 * |s|
    ensures WellFormed(s) ==> |Compressed(s)| <= 2 * |s|
  {
    SizeFrom(START, s);
  }

  // Compressing into a buffer of three bytes per input byte and decompressing again.
  method CompressThenDecompress(inp: array<byte>, count: nat, middle: array<byte>, out: array<byte>)
    returns (size: nat)
    requires count <= inp.Length && inp != middle && middle != out && inp != out
    requires WellFormed(inp[..count]) && middle.Length >= 3 * count && out.Length >= count
    modifies middle, out
    ensures size == count && out[..size] == inp[..count]
  {
    hide Compressed, Decompressed;
    RoundTrip(inp[..count]);
    CompressedSize(inp[..count]);
    var compressed := Compress(inp, count, middle);
    size := Decompress(middle, compressed, out);
  }
}
