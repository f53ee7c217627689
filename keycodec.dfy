/** The key codec of the dynamic modes: the key `(r, s)` as 15 bits
    (dynamicEncrypt, src/Encryption.java:177-184; dynamicDecrypt,
    src/Encryption.java:244-256) and the channel-0 least significant bits
    that carry them (src/Encryption.java:186-212 and 231-242). */
module KeyCodec {
  import opened Bits
  import opened Positions

  // ---------------------------------------------------------------------------
  // The key as bits

  /** `((v >> i) & 1) == 1` for a non-negative `int` `v`. */
  function Bit(v: nat, i: nat): bool
  {
    DivIsNat(v, Pow2(i));
    BitAnd(v / Pow2(i), 1) == 1
  }

  /** `x & 1` is the parity of `x`. */
  lemma LowBitIsParity(x: nat)
    ensures BitAnd(x, 1) == x % 2
  {
    MaskIsMod(x, 2);
  }

  /** Bit `i` of `v` is the parity of `v / 2^i`. */
  lemma BitIsDigit(v: nat, i: nat)
    ensures Bit(v, i) <==> (v / Pow2(i)) % 2 == 1
  {
    DivIsNat(v, Pow2(i));
    LowBitIsParity(v / Pow2(i));
  }

  /** The low `n` bits of `v`, bit 0 first. */
  function LowBits(v: nat, n: nat): (bits: seq<bool>)
    ensures |bits| == n
  {
    seq(n, i requires 0 <= i < n => Bit(v, i))
  }

  /** The 15 key bits: `r`'s bits 0..7 at indices 0..7, `s`'s bits 0..6 at 8..14. */
  function KeyBits(r: nat, s: nat): (bits: seq<bool>)
    ensures |bits| == 15
  {
    LowBits(r, 8) + LowBits(s, 7)
  }

  /** The number whose bit `i` is `bits[i]`, as `v |= (1 << i)` builds it. */
  function BitsValue(bits: seq<bool>): (v: nat)
    ensures v < Pow2(|bits|)
  {
    if |bits| == 0 then 0
    else
      var n := |bits| - 1;
      BitsValue(bits[..n]) + (if bits[n] then Pow2(n) else 0)
  }

  /** `x mod (a*b)` splits into `x mod a` and the next digit base `b`. */
  lemma ModProduct(x: nat, a: nat, b: nat)
    requires a >= 1 && b >= 1
    ensures x % (a * b) == x % a + a * ((x / a) % b)
  {
    var q, t := x / a, x % a;
    var bq, bt := q / b, q % b;
    assert x == a * b * bq + (a * bt + t);
    assert a * bt + t < a * b by {
      assert a * bt <= a * (b - 1);
    }
    DivModUnique(x, a * b, bq, a * bt + t);
  }

  /** Reading back the low `n` bits of `v` gives `v mod 2^n`. */
  lemma {:induction false} LowBitsValue(v: nat, n: nat)
    ensures BitsValue(LowBits(v, n)) == v % Pow2(n)
  {
    if n > 0 {
      var bits := LowBits(v, n);
      assert bits[..n - 1] == LowBits(v, n - 1);
      LowBitsValue(v, n - 1);
      BitIsDigit(v, n - 1);
      ModProduct(v, Pow2(n - 1), 2);
    }
  }

  /** Bit `n` of `low + c * 2^n`, for `low < 2^n`, is `c`. */
  lemma TopBit(low: nat, c: nat, n: nat)
    requires low < Pow2(n) && c <= 1
    ensures Bit(low + c * Pow2(n), n) <==> c == 1
  {
    var v := low + c * Pow2(n);
    if c == 0 {
      assert v == low;
    } else {
      assert v == low + Pow2(n);
    }
    BitIsDigit(v, n);
    DivModUnique(v, Pow2(n), c, low);
  }

  /** Adding `2^n` leaves the bits below `n` alone. */
  lemma LowerBit(low: nat, n: nat, i: nat)
    requires i < n
    ensures Bit(low + Pow2(n), i) == Bit(low, i)
  {
    var a, m := Pow2(i), Pow2(n - i - 1);
    Pow2Split(i, n - i);
    assert Pow2(n - i) == 2 * m;
    assert Pow2(n) == a * (2 * m);
    DivAddMultiple(low, a, 2 * m);
    ModAddMultiple(low / a, 2, m);
    BitIsDigit(low + Pow2(n), i);
    BitIsDigit(low, i);
  }

  /** Bit `i` of an encoded value is the bit it was built from. */
  lemma {:induction false} BitOfValue(bits: seq<bool>, i: nat)
    requires i < |bits|
    ensures Bit(BitsValue(bits), i) == bits[i]
  {
    var n := |bits| - 1;
    var low := BitsValue(bits[..n]);
    var c := if bits[n] then 1 else 0;
    assert BitsValue(bits) == low + c * Pow2(n);
    if i == n {
      TopBit(low, c, n);
    } else {
      assert bits[..n][i] == bits[i];
      BitOfValue(bits[..n], i);
      if bits[n] {
        LowerBit(low, n, i);
      }
    }
  }

  /** The key bits decode to the key: `r < 256`, `s < 128` come back exactly. */
  lemma KeyBitsRoundTrip(r: nat, s: nat)
    requires r < 256 && s < 128
    ensures BitsValue(KeyBits(r, s)[..8]) == r && BitsValue(KeyBits(r, s)[8..]) == s
  {
    assert KeyBits(r, s)[..8] == LowBits(r, 8);
    assert KeyBits(r, s)[8..] == LowBits(s, 7);
    LowBitsValue(r, 8);
    LowBitsValue(s, 7);
    Pow2OfByte();
  }

  /** Every 15-bit pattern is the encoding of the key it decodes to, which
      is in range: the codec is a bijection between keys with `r < 256`,
      `s < 128` and 15-bit patterns. */
  lemma BitsRoundTrip(bits: seq<bool>)
    requires |bits| == 15
    ensures BitsValue(bits[..8]) < 256 && BitsValue(bits[8..]) < 128
    ensures KeyBits(BitsValue(bits[..8]), BitsValue(bits[8..])) == bits
  {
    Pow2OfByte();
    var r, s := BitsValue(bits[..8]), BitsValue(bits[8..]);
    forall i | 0 <= i < 15
      ensures KeyBits(r, s)[i] == bits[i]
    {
      if i < 8 {
        BitOfValue(bits[..8], i);
      } else {
        BitOfValue(bits[8..], i - 8);
      }
    }
  }

  /** dynamicEncrypt's two loops filling `keyBits`. */
  method EncodeKeyBits(r: int, s: int) returns (keyBits: seq<bool>)
    requires 0 <= r < 256 && 0 <= s < 128
    ensures keyBits == KeyBits(r, s)
    ensures BitsValue(keyBits[..8]) == r && BitsValue(keyBits[8..]) == s
  {
    var a := new bool[15];
    for i := 0 to 8
      invariant forall j :: 0 <= j < i ==> a[j] == Bit(r, j)
    {
      a[i] := Bit(r, i);
    }
    for i := 0 to 7
      invariant forall j :: 0 <= j < 8 ==> a[j] == Bit(r, j)
      invariant forall j :: 0 <= j < i ==> a[8 + j] == Bit(s, j)
    {
      a[8 + i] := Bit(s, i);
    }
    keyBits := a[..];
    KeyBitsRoundTrip(r, s);
  }

  /** One decode loop of dynamicDecrypt: `if (bits[i]) v |= (1 << i)`. */
  method DecodeBits(bits: seq<bool>) returns (v: int)
    requires |bits| <= 8
    ensures v == BitsValue(bits)
  {
    v := 0;
    for i := 0 to |bits|
      invariant v == BitsValue(bits[..i])
    {
      assert bits[..i + 1][..i] == bits[..i];
      if bits[i] {
        SetHighBit(v, i);
        v := BitOr(v, Pow2(i));
      }
    }
    assert bits[..|bits|] == bits;
  }

  /** dynamicDecrypt's decoding of the 15 extracted bits into `(r, s)`. */
  method DecodeKeyBits(keyBits: seq<bool>) returns (r: int, s: int)
    requires |keyBits| == 15
    ensures r == BitsValue(keyBits[..8]) && s == BitsValue(keyBits[8..])
    ensures 0 <= r < 256 && 0 <= s < 128 && KeyBits(r, s) == keyBits
  {
    r := DecodeBits(keyBits[..8]);
    s := DecodeBits(keyBits[8..]);
    BitsRoundTrip(keyBits);
  }

  // ---------------------------------------------------------------------------
  // The bits in the frame

  /** The buffer index of channel 0 of pixel `p` in a frame of `width`
      pixels of `channels` samples per row. */
  function ChannelZero(p: Point, width: int, channels: int): int
  {
    PixelNumber(p, width) * channels
  }

  /** Channel 0 of an in-frame pixel lies in the buffer. */
  lemma ChannelZeroBound(p: Point, height: int, width: int, channels: int)
    requires 0 <= p.x < width && 0 <= p.y < height && channels >= 1
    ensures 0 <= ChannelZero(p, width, channels) < height * width * channels
  {
    PixelNumberBound(p, height, width);
    MulMonotone(PixelNumber(p, width), height * width - 1, channels);
    assert (height * width - 1) * channels == height * width * channels - channels;
  }

  /** Distinct in-frame pixels have distinct channel-0 indices. */
  lemma ChannelZeroInjective(p: Point, q: Point, height: int, width: int, channels: int)
    requires 0 <= p.x < width && 0 <= p.y < height && 0 <= q.x < width && 0 <= q.y < height && channels >= 1
    requires p != q
    ensures ChannelZero(p, width, channels) != ChannelZero(q, width, channels)
  {
    if PixelNumber(p, width) == PixelNumber(q, width) {
      PixelNumberInjective(p, q, height, width);
    } else if PixelNumber(p, width) < PixelNumber(q, width) {
      assert PixelNumber(p, width) * channels < PixelNumber(q, width) * channels;
    } else {
      assert PixelNumber(q, width) * channels < PixelNumber(p, width) * channels;
    }
  }

  /** Every position's channel-0 sample lies in a buffer of `len` bytes. */
  predicate IndicesIn(ps: seq<Point>, width: int, channels: int, len: nat)
  {
    forall i :: 0 <= i < |ps| ==> 0 <= ChannelZero(ps[i], width, channels) < len
  }

  lemma InFrameIndicesIn(ps: seq<Point>, height: int, width: int, channels: int)
    requires InFrame(ps, height, width) && height >= 1 && width >= 1 && channels >= 1
    ensures IndicesIn(ps, width, channels, height * width * channels)
  {
    forall i | 0 <= i < |ps|
      ensures 0 <= ChannelZero(ps[i], width, channels) < height * width * channels
    {
      ChannelZeroBound(ps[i], height, width, channels);
    }
  }

  /** `(v & 0xFE) | b` on a sample value replaces its low bit by `b`. */
  lemma ReplaceLowBit(v: nat, b: nat)
    requires v < 256 && b <= 1
    ensures BitOr(BitAnd(v, 0xFE), b) == v - v % 2 + b
  {
    ClearLowBit(v);
    SetLowBit(v - v % 2, b);
  }

  /** A sample with its low bit replaced by `bit`: `(v & 0xFE) | bit` on the
      unsigned value, stored back as a byte. */
  function WithLowBit(v: I8, bit: bool): (w: I8)
    ensures U8(w) % 2 == (if bit then 1 else 0) && U8(w) / 2 == U8(v) / 2
  {
    var u := U8(v);
    var b := if bit then 1 else 0;
    ReplaceLowBit(u, b);
    var n := BitOr(BitAnd(u, 0xFE), b);
    DivModUnique(n, 2, u / 2, b);
    ToI8(n)
  }

  /** `(v & 1) == 1` on the unsigned value of a sample. */
  function LowBit(v: I8): (bit: bool)
    ensures bit <==> U8(v) % 2 == 1
  {
    LowBitIsParity(U8(v));
    BitAnd(U8(v), 1) == 1
  }

  /** The buffer after the first `m` bits are hidden, in loop order. */
  function Embedded(data: seq<I8>, width: int, channels: int, ps: seq<Point>, bits: seq<bool>, m: nat): (d: seq<I8>)
    requires m <= |ps| == |bits| && IndicesIn(ps, width, channels, |data|)
    ensures |d| == |data|
  {
    if m == 0 then data
    else
      var d := Embedded(data, width, channels, ps, bits, m - 1);
      var at := ChannelZero(ps[m - 1], width, channels);
      d[at := WithLowBit(d[at], bits[m - 1])]
  }

  /** Hiding bits changes only the low bits of the positions' channel-0 samples. */
  lemma {:induction false} EmbedChangesOnlyLowBits(data: seq<I8>, width: int, channels: int, ps: seq<Point>, bits: seq<bool>, m: nat, p: nat)
    requires m <= |ps| == |bits| && IndicesIn(ps, width, channels, |data|) && p < |data|
    ensures U8(Embedded(data, width, channels, ps, bits, m)[p]) / 2 == U8(data[p]) / 2
    ensures (forall i :: 0 <= i < m ==> ChannelZero(ps[i], width, channels) != p) ==>
      Embedded(data, width, channels, ps, bits, m)[p] == data[p]
  {
    if m > 0 {
      EmbedChangesOnlyLowBits(data, width, channels, ps, bits, m - 1, p);
    }
  }

  /** With distinct in-frame positions, each hidden bit survives the later ones. */
  lemma {:induction false} EmbedSetsBits(data: seq<I8>, height: int, width: int, channels: int, ps: seq<Point>, bits: seq<bool>, m: nat, i: nat)
    requires m <= |ps| == |bits| && height >= 1 && width >= 1 && channels >= 1 && |data| == height * width * channels
    requires InFrame(ps, height, width) && NoDuplicates(ps) && i < m
    ensures IndicesIn(ps, width, channels, |data|)
    ensures LowBit(Embedded(data, width, channels, ps, bits, m)[ChannelZero(ps[i], width, channels)]) == bits[i]
  {
    InFrameIndicesIn(ps, height, width, channels);
    if i < m - 1 {
      EmbedSetsBits(data, height, width, channels, ps, bits, m - 1, i);
      ChannelZeroInjective(ps[i], ps[m - 1], height, width, channels);
    }
  }

  /** dynamicEncrypt's embedding loop: it updates the encrypted frame's
      buffer in place, one channel-0 sample per key bit. */
  method Embed(buf: array<I8>, width: int, channels: int, ps: seq<Point>, keyBits: seq<bool>)
    requires |ps| == |keyBits| && IndicesIn(ps, width, channels, buf.Length)
    modifies buf
    ensures buf[..] == Embedded(old(buf[..]), width, channels, ps, keyBits, |ps|)
  {
    ghost var original := buf[..];
    for i := 0 to |ps|
      invariant buf[..] == Embedded(original, width, channels, ps, keyBits, i)
    {
      var p := ps[i];
      var row, col := p.y, p.x;
      var at := ChannelZero(Point(col, row), width, channels);
      var channelValue := U8(buf[at]);
      var bitToHide := if keyBits[i] then 1 else 0;
      ReplaceLowBit(channelValue, bitToHide);
      var newValue := BitOr(BitAnd(channelValue, 0xFE), bitToHide);
      assert ToI8(newValue) == WithLowBit(buf[at], keyBits[i]);
      EmbedStep(original, width, channels, ps, keyBits, i, buf[..]);
      buf[at] := ToI8(newValue);
    }
  }

  /** One pass of the embedding loop: the sample of position `i` gets bit `i`
      as its low bit. */
  lemma EmbedStep(data: seq<I8>, width: int, channels: int, ps: seq<Point>, bits: seq<bool>, i: nat, cur: seq<I8>)
    requires i < |ps| == |bits| && IndicesIn(ps, width, channels, |data|)
    requires cur == Embedded(data, width, channels, ps, bits, i)
    ensures var at := ChannelZero(Point(ps[i].x, ps[i].y), width, channels);
      0 <= at < |cur| && Embedded(data, width, channels, ps, bits, i + 1) == cur[at := WithLowBit(cur[at], bits[i])]
  {
    assert Point(ps[i].x, ps[i].y) == ps[i];
  }

  /** The low bits at the positions' channel-0 samples, in position order. */
  function Extracted(data: seq<I8>, width: int, channels: int, ps: seq<Point>): (bits: seq<bool>)
    requires IndicesIn(ps, width, channels, |data|)
    ensures |bits| == |ps|
  {
    seq(|ps|, i requires 0 <= i < |ps| => LowBit(data[ChannelZero(ps[i], width, channels)]))
  }

  /** dynamicDecrypt's extraction loop. */
  method ExtractKeyBits(data: seq<I8>, width: int, channels: int, ps: seq<Point>) returns (keyBits: seq<bool>)
    requires IndicesIn(ps, width, channels, |data|)
    ensures keyBits == Extracted(data, width, channels, ps)
  {
    var a := new bool[|ps|];
    for i := 0 to |ps|
      invariant forall j :: 0 <= j < i ==> a[j] == LowBit(data[ChannelZero(ps[j], width, channels)])
    {
      var p := ps[i];
      var channelValue := U8(data[ChannelZero(Point(p.x, p.y), width, channels)]);
      LowBitIsParity(channelValue);
      a[i] := BitAnd(channelValue, 1) == 1;
    }
    keyBits := a[..];
  }

  /** Extraction after embedding at distinct in-frame positions gives back the bits. */
  lemma ExtractEmbedded(data: seq<I8>, height: int, width: int, channels: int, ps: seq<Point>, bits: seq<bool>)
    requires |ps| == |bits| && height >= 1 && width >= 1 && channels >= 1 && |data| == height * width * channels
    requires InFrame(ps, height, width) && NoDuplicates(ps)
    ensures IndicesIn(ps, width, channels, |data|)
    ensures Extracted(Embedded(data, width, channels, ps, bits, |ps|), width, channels, ps) == bits
  {
    InFrameIndicesIn(ps, height, width, channels);
    forall i | 0 <= i < |ps|
      ensures LowBit(Embedded(data, width, channels, ps, bits, |ps|)[ChannelZero(ps[i], width, channels)]) == bits[i]
    {
      EmbedSetsBits(data, height, width, channels, ps, bits, |ps|, i);
    }
  }
}
