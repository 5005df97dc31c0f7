// How the length of a stored string is written in front of it: seven bits to a byte, low bits first,
// with the high bit set on every byte but the last.
module StringLength {
  import opened Bytes

  const TWO_64: nat := 0x1_0000_0000_0000_0000

  function Encode(n: nat): (r: seq<byte>) {
    if n == 0 then [] else if n <= 127 then [n] else [n % 128 + 128] + Encode(n / 128)
  }

  // The number at the start of s, and how many bytes it takes up.
  function Decode(s: seq<byte>): (r: Option<(nat, nat)>)
    ensures r.Some? ==> 0 < r.value.1 <= |s|
  {
    if s == [] then None
    else if s[0] <= 127 then Some((s[0], 1))
    else match Decode(s[1..])
      case Some((n, k)) => Some((s[0] - 128 + 128 * n, k + 1))
      case None => None
  }

  // A length can be read back whatever follows it, except for the length zero, which takes no bytes.
  lemma {:induction false} LengthRoundTrip(n: nat, rest: seq<byte>)
    ensures Decode(Encode(n) + rest) == Some((n, |Encode(n)|)) <==> n > 0
  {
    if n > 127 {
      LengthRoundTrip(n / 128, rest);
      assert (Encode(n) + rest)[1..] == Encode(n / 128) + rest;
    }
  }

  function BitLength(n: nat): (r: nat) { if n == 0 then 0 else 1 + BitLength(n / 2) }

  function BytesForLen(n: nat): (r: nat) {
    var significantBits := BitLength(n);
    significantBits / 7 + if significantBits % 7 != 0 then 1 else 0
  }

  // The space computed beforehand is the space the encoding takes.
  lemma {:induction false} BytesForLenIsExact(n: nat)
    ensures |Encode(n)| == BytesForLen(n)
  {
    if n > 127 {
      BytesForLenIsExact(n / 128);
      BitLengthShift(n);
    } else if n > 0 {
      SmallBitLength(n);
    }
  }

  lemma BitLengthShift(n: nat)
    requires n > 127
    ensures BitLength(n) == 7 + BitLength(n / 128)
  {
    HalveTwice(n);
    HalveTwice(n / 4);
    HalveTwice(n / 16);
    assert n / 4 / 4 == n / 16 && n / 16 / 4 == n / 64 && n / 64 / 2 == n / 128;
  }

  lemma HalveTwice(n: nat)
    requires n > 1
    ensures BitLength(n) == 2 + BitLength(n / 4)
  {
    assert n / 2 / 2 == n / 4;
  }

  lemma SmallBitLength(n: nat)
    requires 0 < n <= 127
    ensures 0 < BitLength(n) <= 7
  {
    BitLengthMonotone(n, 127);
    assert BitLength(127) == 1 + BitLength(63) == 2 + BitLength(31) == 3 + BitLength(15) == 4 + BitLength(7);
  }

  lemma {:induction false} BitLengthMonotone(m: nat, n: nat)
    requires m <= n
    ensures BitLength(m) <= BitLength(n)
  {
    if m > 0 {
      BitLengthMonotone(m / 2, n / 2);
    }
  }

  // The encoding of a length is no longer than the string.
  lemma {:induction false} EncodeShort(n: nat)
    ensures |Encode(n)| <= n && (n > 0 ==> |Encode(n)| > 0)
  {
    if n > 127 {
      EncodeShort(n / 128);
    }
  }

  // Ten bytes are enough for the length of any string.
  lemma EncodeBounded(n: nat)
    requires n < TWO_64
    ensures |Encode(n)| <= 10
  {
    EncodeFits(n, 10);
    assert Pow128(10) == 128 * Pow128(9) && Pow128(9) == 128 * Pow128(8) && Pow128(8) == 128 * Pow128(7)
           && Pow128(7) == 128 * Pow128(6) && Pow128(6) == 128 * Pow128(5) && Pow128(5) == 128 * Pow128(4)
           && Pow128(4) == 128 * Pow128(3);
  }

  lemma {:induction false} EncodeFits(n: nat, k: nat)
    ensures n < Pow128(k) ==> |Encode(n)| <= k
  {
    if k > 0 && n > 127 {
      EncodeFits(n / 128, k - 1);
    }
  }

  function Overwrite(s: seq<byte>, at: nat, w: seq<byte>): (r: seq<byte>)
    requires at + |w| <= |s|
    ensures |r| == |s|
  {
    s[..at] + w + s[at + |w|..]
  }

  method WriteEncodedStrlen(buffer: array<byte>, at: nat, n: nat) returns (count: nat)
    requires n < TWO_64 && at + |Encode(n)| <= buffer.Length
    modifies buffer
    ensures count == |Encode(n)| && buffer[..] == Overwrite(old(buffer[..]), at, Encode(n))
  {
    count := 0;
    var remaining := n;
    ghost var was := buffer[..];
    ghost var done: seq<byte> := [];
    while remaining != 0
      invariant Encode(n) == done + Encode(remaining) && |done| == count && at + count <= |was| == buffer.Length
      invariant buffer[..] == Overwrite(was, at, done)
      decreases remaining
    {
      var b := if remaining <= 127 then remaining else remaining % 128 + 128;
      EncodeStep(remaining, done, b);
      OverwriteSnoc(was, at, done, b);
      buffer[at + count] := b;
      done := done + [b];
      remaining := remaining / 128;
      count := count + 1;
    }
  }

  lemma EncodeStep(n: nat, done: seq<byte>, b: byte)
    requires n > 0 && b == if n <= 127 then n else n % 128 + 128
    ensures done + Encode(n) == (done + [b]) + Encode(n / 128) && |Encode(n)| > 0
  {}

  lemma OverwriteSnoc(s: seq<byte>, at: nat, w: seq<byte>, b: byte)
    requires at + |w| < |s|
    ensures Overwrite(s, at, w)[at + |w| := b] == Overwrite(s, at, w + [b])
  {}

  function Pow128(k: nat): (r: nat)
    ensures r > 0
  {
    if k == 0 then 1 else 128 * Pow128(k - 1)
  }

  method GetStringLen(block: array<byte>, at: nat) returns (len: nat, bytesForLen: nat)
    requires at <= block.Length && Decode(block[at..]).Some?
    requires Decode(block[at..]).value.0 < TWO_64 && Decode(block[at..]).value.1 <= 10
    ensures Decode(block[at..]) == Some((len, bytesForLen))
  {
    len, bytesForLen := 0, 0;
    hide Pow128, Decode;
    ghost var s := block[at..];
    ghost var rest, scale := s, 1;
    while true
      invariant bytesForLen < |s| && rest == s[bytesForLen..] && Decode(rest).Some? && len < scale
      invariant Decode(s) == Some((len + scale * Decode(rest).value.0, bytesForLen + Decode(rest).value.1))
      invariant scale == Pow128(bytesForLen)
      decreases |rest|
    {
      var b := block[at + bytesForLen];
      DecodeUnfold(rest);
      NextDigit(len, scale, b % 128, if b <= 127 then 0 else Decode(rest[1..]).value.0);
      Pow128Next(bytesForLen);
      len := len + b % 128 * Pow128(bytesForLen);
      bytesForLen := bytesForLen + 1;
      if b <= 127 {
        break;
      }
      rest, scale := rest[1..], 128 * scale;
    }
  }

  lemma Pow128Next(k: nat)
    ensures Pow128(0) == 1 && Pow128(k + 1) == 128 * Pow128(k)
  {}

  lemma DecodeUnfold(rest: seq<byte>)
    requires Decode(rest).Some?
    ensures rest != []
    ensures rest[0] <= 127 ==> Decode(rest) == Some((rest[0] % 128, 1))
    ensures rest[0] > 127 ==>
              && Decode(rest[1..]).Some?
              && Decode(rest) == Some((rest[0] % 128 + 128 * Decode(rest[1..]).value.0, 1 + Decode(rest[1..]).value.1))
  {}

  // The bits of the next byte go above those read so far.
  lemma NextDigit(low: nat, scale: nat, digit: nat, high: nat)
    requires digit < 128 && low < scale
    ensures low + digit * scale < 128 * scale
    ensures low + scale * (digit + 128 * high) == low + digit * scale + 128 * scale * high
  {
    DigitBound(digit, scale);
    Distribute(scale, digit, high);
  }

  lemma DigitBound(digit: nat, scale: nat)
    requires digit < 128
    ensures digit * scale <= 127 * scale
  {}

  lemma Distribute(scale: nat, digit: nat, high: nat)
    ensures scale * (digit + 128 * high) == digit * scale + 128 * scale * high
  {
    assert scale * (128 * high) == 128 * scale * high;
  }
}
