// The string compressor: a two-mode SCSU encoder over UTF-8 text, and its decoder.
module Scsu {
  import opened Arithmetic
  import opened Bytes
  import opened Utf8

  const SQ0: byte := 0x01  // quote from window pair 0
  const SQU: byte := 0x0E  // quote one UTF-16 unit
  const SCU: byte := 0x0F  // change to Unicode mode
  const SC0: byte := 0x10  // select dynamic window 0
  const UC0: byte := 0xE0  // leave Unicode mode, selecting dynamic window 0
  const UQU: byte := 0xF0  // quote one UTF-16 unit in Unicode mode

  // Eight dynamic windows followed by eight static ones.
  const OFFSETS: seq<nat> := [
    0x0080, 0x00C0, 0x0400, 0x0600, 0x0900, 0x3040, 0x30A0, 0xFF00,
    0x0000, 0x0080, 0x0100, 0x0300, 0x2000, 0x2080, 0x2100, 0x3000
  ]

  // The state shared by encoder and decoder: the mode and the selected dynamic window.
  datatype Mode = Mode(unicode: bool, window: nat) {
    ghost predicate Valid() { window < 8 }
  }

  const START := Mode(false, 0)

  predicate InWindow(offset: nat, c: nat) { offset <= c <= offset + 0x7F }

  // The least window of index at least i that contains c, or -1.
  function FirstWindow(c: nat, i: nat): (w: int)
    requires i <= 16
    ensures w == -1 || (i <= w < 16 && InWindow(OFFSETS[w], c))
    ensures forall j :: i <= j < 16 && (w == -1 || j < w) ==> !InWindow(OFFSETS[j], c)
    decreases 16 - i
  {
    if i == 16 then -1
    else if InWindow(OFFSETS[i], c) then i
    else FirstWindow(c, i + 1)
  }

  method GetWindow(c: nat) returns (w: int)
    ensures w == FirstWindow(c, 0)
  {
    for i := 0 to 16
      invariant FirstWindow(c, 0) == FirstWindow(c, i)
    {
      if InWindow(OFFSETS[i], c) {
        return i;
      }
    }
    return -1;
  }

  /* ----- encoder ----- */

  // Control characters that need no quoting: NUL, TAB, LF and CR.
  predicate IsDirectControl(c: nat) { c in {0x00, 0x09, 0x0A, 0x0D} }

  function Ascii(c: nat): (r: seq<byte>)
    requires c <= 0x7F
  {
    if c < 0x20 && !IsDirectControl(c) then [SQ0, c] else [c]
  }

  function UnicodeUnit(c: nat): (r: seq<byte>)
    requires c <= 0xFFFF
  {
    (if 0xE000 <= c <= 0xF2FF then [UQU] else []) + [c / 256, c % 256]
  }

  // The bytes for one UTF-16 unit and the mode they leave behind.
  function EncodeUnit(m: Mode, c: nat): (r: (seq<byte>, Mode))
    requires m.Valid() && c <= 0xFFFF
    ensures r.1.Valid()
  {
    var w := FirstWindow(c, 0);
    if c <= 0x7F then
      ((if m.unicode then [UC0 + m.window] else []) + Ascii(c), m.(unicode := false))
    else if m.unicode then
      if 0 <= w <= 7 then ([UC0 + w, 0x80 + (c - OFFSETS[w])], Mode(false, w))
      else (UnicodeUnit(c), m)
    else if InWindow(OFFSETS[m.window], c) then ([0x80 + (c - OFFSETS[m.window])], m)
    else if 0 <= w <= 7 then ([SC0 + w, 0x80 + (c - OFFSETS[w])], Mode(false, w))
    else if w > 7 then ([SQ0 + (w - 8), c - OFFSETS[w]], m)
    else if c == 0xFEFF then ([SQU, 0xFE, 0xFF], m)
    else ([SCU] + UnicodeUnit(c), m.(unicode := true))
  }

  function HighUnit(c: nat): (r: nat)
    requires 0xFFFF < c <= MAX_CODE_POINT
    ensures 0xD800 <= r < 0xDC00
  {
    0xD800 + (c - 0x10000) / 1024
  }

  function LowUnit(c: nat): (r: nat)
    requires 0xFFFF < c <= MAX_CODE_POINT
    ensures 0xDC00 <= r < 0xE000
  {
    0xDC00 + (c - 0x10000) % 1024
  }

  function EncodePoint(m: Mode, c: nat): (r: (seq<byte>, Mode))
    requires m.Valid()
    ensures r.1.Valid()
  {
    if c > MAX_CODE_POINT then ([], m)
    else if c > 0xFFFF then
      var (high, m1) := EncodeUnit(m, HighUnit(c));
      var (low, m2) := EncodeUnit(m1, LowUnit(c));
      (high + low, m2)
    else EncodeUnit(m, c)
  }

  function EncodeAll(m: Mode, cs: seq<nat>): (r: seq<byte>)
    requires m.Valid()
    decreases cs
  {
    if cs == [] then [] else var (b, m1) := EncodePoint(m, cs[0]); b + EncodeAll(m1, cs[1..])
  }

  function Compressed(s: seq<byte>): (r: seq<byte>) { EncodeAll(START, CodePoints(s)) }

  class State {
    var isUnicodeMode: bool
    var window: nat

    constructor ()
      ensures Value() == START
    {
      isUnicodeMode, window := false, 0;
    }

    function Value(): Mode
      reads this
    {
      Mode(isUnicodeMode, window)
    }

    ghost predicate Valid()
      reads this
    {
      Value().Valid()
    }

    // Whether the recursion below has to change mode before it can emit c.
    ghost predicate Switches(c: nat)
      reads this
    {
      if isUnicodeMode then c <= 0x7F || 0 <= FirstWindow(c, 0) <= 7
      else c > 0x7F && FirstWindow(c, 0) == -1
    }

    // The single-byte branch of the source's encode, for one UTF-16 unit.
    method EncodeSingleByte(c: nat, out: array<byte>, pos: nat) returns (end: nat)
      requires Valid() && c <= 0xFFFF && !isUnicodeMode
      requires pos + |EncodeUnit(Value(), c).0| <= out.Length
      modifies this, out
      ensures Value() == old(EncodeUnit(Value(), c).1)
      ensures end == pos + |old(EncodeUnit(Value(), c).0)|
      ensures out[..end] == old(out[..pos]) + old(EncodeUnit(Value(), c).0)
      decreases Switches(c)
    {
      hide FirstWindow;
      end := pos;
      if c < 0x20 {
        if !IsDirectControl(c) {
          end := Put(SQ0, out, end);
        }
        end := Put(c, out, end);
      } else if c <= 0x7F {
        end := Put(c, out, end);
      } else if InWindow(OFFSETS[window], c) {
        end := Put(0x80 + (c - OFFSETS[window]), out, end);
      } else {
        var w := GetWindow(c);
        if w >= 0 {
          if w <= 7 {
            end := Put(SC0 + w, out, end);
            end := Put(0x80 + (c - OFFSETS[w]), out, end);
            window := w;
          } else {
            end := Put(SQ0 + (w - 8), out, end);
            end := Put(c - OFFSETS[w], out, end);
          }
        } else if c == 0xFEFF {
          end := Put(SQU, out, end);
          end := Put(0xFE, out, end);
          end := Put(0xFF, out, end);
        } else {
          end := Put(SCU, out, end);
          isUnicodeMode := true;
          end := EncodeUnicode(c, out, end);
        }
      }
    }

    // The Unicode branch of the source's encode, for one UTF-16 unit.
    method EncodeUnicode(c: nat, out: array<byte>, pos: nat) returns (end: nat)
      requires Valid() && c <= 0xFFFF && isUnicodeMode
      requires pos + |EncodeUnit(Value(), c).0| <= out.Length
      modifies this, out
      ensures Value() == old(EncodeUnit(Value(), c).1)
      ensures end == pos + |old(EncodeUnit(Value(), c).0)|
      ensures out[..end] == old(out[..pos]) + old(EncodeUnit(Value(), c).0)
      decreases Switches(c)
    {
      hide FirstWindow;
      end := pos;
      var w := GetWindow(c);
      if c <= 0x7F {
        isUnicodeMode := false;
        end := Put(UC0 + window, out, end);
        end := EncodeSingleByte(c, out, end);
      } else if 0 <= w <= 7 {
        end := Put(UC0 + w, out, end);
        window := w;
        isUnicodeMode := false;
        end := EncodeSingleByte(c, out, end);
      } else {
        if 0xE000 <= c <= 0xF2FF {
          end := Put(UQU, out, end);
        }
        end := Put(c / 256, out, end);
        end := Put(c % 256, out, end);
      }
    }

    method EncodeBmp(c: nat, out: array<byte>, pos: nat) returns (end: nat)
      requires Valid() && c <= 0xFFFF
      requires pos + |EncodeUnit(Value(), c).0| <= out.Length
      modifies this, out
      ensures Value() == old(EncodeUnit(Value(), c).1)
      ensures end == pos + |old(EncodeUnit(Value(), c).0)|
      ensures out[..end] == old(out[..pos]) + old(EncodeUnit(Value(), c).0)
    {
      hide EncodeUnit;
      if !isUnicodeMode {
        end := EncodeSingleByte(c, out, pos);
      } else {
        end := EncodeUnicode(c, out, pos);
      }
    }

    method Encode(c: nat, out: array<byte>, pos: nat) returns (end: nat)
      requires Valid()
      requires pos + |EncodePoint(Value(), c).0| <= out.Length
      modifies this, out
      ensures Value() == old(EncodePoint(Value(), c).1)
      ensures end == pos + |old(EncodePoint(Value(), c).0)|
      ensures out[..end] == old(out[..pos]) + old(EncodePoint(Value(), c).0)
    {
      hide EncodeUnit, HighUnit, LowUnit;
      if c > MAX_CODE_POINT {
        return pos;
      }
      if c > 0xFFFF {
        ghost var (high, m1) := EncodeUnit(Value(), HighUnit(c));
        ghost var low := EncodeUnit(m1, LowUnit(c)).0;
        ghost var before := out[..pos];
        end := EncodeBmp(HighUnit(c), out, pos);
        end := EncodeBmp(LowUnit(c), out, end);
        assert out[..end] == (before + high) + low == before + (high + low);
      } else {
        end := EncodeBmp(c, out, pos);
      }
    }
  }

  // The source's *out++ = b.
  method Put(b: byte, out: array<byte>, pos: nat) returns (end: nat)
    requires pos < out.Length
    modifies out
    ensures end == pos + 1
    ensures out[..end] == old(out[..pos]) + [b]
  {
    out[pos] := b;
    end := pos + 1;
  }

  method Compress(inp: array<byte>, count: nat, out: array<byte>) returns (size: nat)
    requires count <= inp.Length && inp != out
    requires |Compressed(inp[..count])| <= out.Length
    modifies out
    ensures size == |Compressed(inp[..count])|
    ensures out[..size] == Compressed(inp[..count])
  {
    hide Read;
    hide EncodePoint;
    var state := new State();
    var i := 0;
    size := 0;
    while i < count
      invariant i <= count && state.Valid() && fresh(state) && size <= out.Length
      invariant out[..size] + EncodeAll(state.Value(), CodePoints(inp[i..count])) == Compressed(inp[..count])
    {
      ghost var m, rest := state.Value(), inp[i..count];
      var c, next := CodePointFromUtf8(inp, i, count);
      EncodeAllStep(m, rest);
      assert rest[next - i..] == inp[next..count];
      size := state.Encode(c, out, size);
      i := next;
    }
  }

  // The encoder's loop, one code point of the text at a time.
  lemma EncodeAllStep(m: Mode, s: seq<byte>)
    requires m.Valid() && s != []
    ensures var (c, n) := Read(s);
            var (b, m1) := EncodePoint(m, c);
            EncodeAll(m, CodePoints(s)) == b + EncodeAll(m1, CodePoints(s[n..]))
  {
    var (c, n) := Read(s);
    assert CodePoints(s)[1..] == CodePoints(s[n..]);
  }

  /* ----- decoder ----- */

  // The 32-bit arithmetic on a pair of units, whatever they are.
  function Pair(high: nat, low: nat): (r: nat)
    requires 0xD800 <= high && low <= 0xFFFF
  {
    (Or((high - 0xD800) * 1024, (low - 0xDC00) % 0x1_0000_0000) + 0x10000) % 0x1_0000_0000
  }

  // What one round of the decoding loop consumes, emits and leaves as mode.
  datatype Step = Step(used: nat, emitted: seq<nat>, mode: Mode)

  function Unit(s: seq<byte>, i: nat): (r: nat)
    requires i + 1 < |s|
    ensures r <= 0xFFFF
  {
    s[i] as int * 256 + s[i + 1] as int
  }

  // One round of the loop; None where the source would read past the end of its input.
  function DecodeStep(m: Mode, s: seq<byte>): (r: Option<Step>)
    requires m.Valid() && s != []
    ensures r.Some? ==> 0 < r.value.used <= |s| && r.value.mode.Valid()
  {
    if !m.unicode then
      if SQ0 <= s[0] < SQ0 + 8 then
        if |s| < 2 then None
        else Some(Step(2, [s[1] + OFFSETS[s[0] - SQ0 + if s[1] < 0x80 then 8 else 0]], m))
      else if s[0] == SQU then
        if |s| < 3 then None else Some(Step(3, [Unit(s, 1)], m))
      else if s[0] == SCU then Some(Step(1, [], m.(unicode := true)))
      else if SC0 <= s[0] < SC0 + 8 then Some(Step(1, [], m.(window := s[0] - SC0)))
      else if s[0] < 0x80 then Some(Step(1, [s[0]], m))
      else Some(Step(1, [s[0] + OFFSETS[m.window] - 0x80], m))
    else
      if s[0] == UQU then
        if |s| < 3 then None else Some(Step(3, [Unit(s, 1)], m))
      else if UC0 <= s[0] < UC0 + 8 then Some(Step(1, [], Mode(false, s[0] - UC0)))
      else if 0xD8 <= s[0] < 0xDC then
        if |s| < 4 then None else Some(Step(4, [Pair(Unit(s, 0), Unit(s, 2))], m))
      else
        if |s| < 2 then None else Some(Step(2, [Unit(s, 0)], m))
  }

  function Decode(m: Mode, s: seq<byte>): (r: Option<seq<nat>>)
    requires m.Valid()
    decreases |s|
  {
    if s == [] then Some([])
    else
      match DecodeStep(m, s)
      case None => None
      case Some(step) =>
        match Decode(step.mode, s[step.used..])
        case None => None
        case Some(cs) => Some(step.emitted + cs)
  }

  function Decompressed(s: seq<byte>): (r: Option<seq<byte>>) {
    match Decode(START, s)
    case None => None
    case Some(cs) => Some(Write(cs))
  }

  // One round in single-byte mode.
  method SingleByteRound(inp: array<byte>, i: nat, count: nat, window: nat, out: array<byte>, pos: nat)
    returns (next: nat, mode: Mode, end: nat)
    requires i < count <= inp.Length && inp != out && window < 8
    requires DecodeStep(Mode(false, window), inp[i..count]).Some?
    requires pos + |Write(DecodeStep(Mode(false, window), inp[i..count]).value.emitted)| <= out.Length
    modifies out
    ensures var step := DecodeStep(Mode(false, window), inp[i..count]).value;
            && next == i + step.used && mode == step.mode && end == pos + |Write(step.emitted)|
            && out[..end] == old(out[..pos]) + Write(step.emitted)
  {
    hide WriteUtf8;
    ghost var s := inp[i..count];
    assert forall k :: 0 <= k < |s| ==> s[k] == inp[i + k];
    var b := inp[i];
    mode := Mode(false, window);
    end := pos;
    if SQ0 <= b < SQ0 + 8 {
      var q_window := b - SQ0;
      if inp[i + 1] < 0x80 {
        end := PutUtf8(inp[i + 1] + OFFSETS[q_window + 8], out, end);
      } else {
        end := PutUtf8(inp[i + 1] + OFFSETS[q_window], out, end);
      }
      next := i + 2;
    } else if b == SQU {
      end := PutUtf8(inp[i + 1] as int * 256 + inp[i + 2] as int, out, end);
      next := i + 3;
    } else if b == SCU {
      mode := mode.(unicode := true);
      next := i + 1;
    } else if SC0 <= b < SC0 + 8 {
      mode := mode.(window := b - SC0);
      next := i + 1;
    } else if b < 0x80 {
      end := PutUtf8(b, out, end);
      next := i + 1;
    } else {
      end := PutUtf8(b + OFFSETS[window] - 0x80, out, end);
      next := i + 1;
    }
  }

  // One round in Unicode mode.
  method UnicodeRound(inp: array<byte>, i: nat, count: nat, window: nat, out: array<byte>, pos: nat)
    returns (next: nat, mode: Mode, end: nat)
    requires i < count <= inp.Length && inp != out && window < 8
    requires DecodeStep(Mode(true, window), inp[i..count]).Some?
    requires pos + |Write(DecodeStep(Mode(true, window), inp[i..count]).value.emitted)| <= out.Length
    modifies out
    ensures var step := DecodeStep(Mode(true, window), inp[i..count]).value;
            && next == i + step.used && mode == step.mode && end == pos + |Write(step.emitted)|
            && out[..end] == old(out[..pos]) + Write(step.emitted)
  {
    hide WriteUtf8;
    ghost var s := inp[i..count];
    assert forall k :: 0 <= k < |s| ==> s[k] == inp[i + k];
    var b := inp[i];
    mode := Mode(true, window);
    end := pos;
    if b == UQU {
      end := PutUtf8(inp[i + 1] as int * 256 + inp[i + 2] as int, out, end);
      next := i + 3;
    } else if UC0 <= b < UC0 + 8 {
      mode := Mode(false, b - UC0);
      next := i + 1;
    } else if 0xD8 <= b < 0xDC {
      var high := b as int * 256 + inp[i + 1] as int;
      var low := inp[i + 2] as int * 256 + inp[i + 3] as int;
      end := PutUtf8(Pair(high, low), out, end);
      next := i + 4;
    } else {
      end := PutUtf8(b as int * 256 + inp[i + 1] as int, out, end);
      next := i + 2;
    }
  }

  // The source does not check for truncated input, so its callers must not pass any.
  method Decompress(inp: array<byte>, count: nat, out: array<byte>) returns (size: nat)
    requires count <= inp.Length && inp != out
    requires Decompressed(inp[..count]).Some?
    requires |Decompressed(inp[..count]).value| <= out.Length
    modifies out
    ensures size <= out.Length && Some(out[..size]) == Decompressed(inp[..count])
  {
    hide Decode, DecodeStep, Write;
    var mode := START;
    var i := 0;
    size := 0;
    assert inp[0..count] == inp[..count];
    while i < count
      invariant i <= count && mode.Valid() && size <= out.Length
      invariant Decode(mode, inp[i..count]).Some?
      invariant out[..size] + Write(Decode(mode, inp[i..count]).value) == Decompressed(inp[..count]).value
    {
      ghost var s := inp[i..count];
      DecodeUnroll(mode, s);
      ghost var step := DecodeStep(mode, s).value;
      assert s[step.used..] == inp[i + step.used..count];
      if !mode.unicode {
        i, mode, size := SingleByteRound(inp, i, count, mode.window, out, size);
      } else {
        i, mode, size := UnicodeRound(inp, i, count, mode.window, out, size);
      }
    }
    DecodeEmpty(mode);
    assert inp[i..count] == [];
    assert Write(Decode(mode, inp[i..count]).value) == [];
    assert out[..size] == Decompressed(inp[..count]).value;
  }

  lemma DecodeEmpty(m: Mode)
    requires m.Valid()
    ensures Decode(m, []) == Some([]) && Write([]) == []
  {}

  // The decoder's loop, one round at a time.
  lemma DecodeUnroll(m: Mode, s: seq<byte>)
    requires m.Valid() && s != [] && Decode(m, s).Some?
    ensures DecodeStep(m, s).Some?
    ensures var step := DecodeStep(m, s).value;
            var tail := Decode(step.mode, s[step.used..]);
            tail.Some? && Write(Decode(m, s).value) == Write(step.emitted) + Write(tail.value)
  {
    hide DecodeStep, Write;
    var step := DecodeStep(m, s).value;
    WriteConcat(step.emitted, Decode(step.mode, s[step.used..]).value);
  }
}
