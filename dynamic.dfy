/** dynamicEncrypt and dynamicDecrypt of src/Encryption.java: the row cipher
    with its key hidden in the frame itself.  The key's 15 bits go into the
    low bit of channel 0 of 15 pixels chosen from the user's number; the
    decrypting side finds the same pixels from the same number. */
module Dynamic {
  import opened Results
  import opened Bits
  import opened Frames
  import opened Cipher
  import opened Positions
  import opened KeyCodec
  import opened Keys

  /** The frame buffer read as `height · width · channels` samples. */
  lemma FrameSize(f: Frame)
    requires f.Valid()
    ensures |f.data| == f.height * f.width * f.channels
  {
    assert f.height * (f.width * f.channels) == f.height * f.width * f.channels;
  }

  /** The channel-0 samples of in-frame positions lie in a valid frame's buffer. */
  lemma PositionsInBuffer(f: Frame, ps: seq<Point>)
    requires f.Valid() && InFrame(ps, f.height, f.width) && f.height >= 1 && f.width >= 1
    ensures IndicesIn(ps, f.width, f.channels, |f.data|)
  {
    FrameSize(f);
    InFrameIndicesIn(ps, f.height, f.width, f.channels);
  }

  /** What dynamicEncrypt returns when `java.util.Random` picks `r` and `s`
      and the position generator yields `draws`. */
  ghost function DynamicEncrypted(input: Frame, draws: seq<Point>, r: nat, s: nat): (res: Result<Frame, PositionError>)
    requires input.Valid() && InFrame(draws, input.height, input.width)
    ensures res.Ok? <==> PositionsFor(input.height, input.width, draws).Ok?
  {
    match PositionsFor(input.height, input.width, draws)
    case Err(e) => Err(e)
    case Ok(ps) =>
      PositionsValid(input.height, input.width, draws);
      var e := Encrypted(input, r, s);
      PositionsInBuffer(e, ps);
      Ok(e.(data := Embedded(e.data, e.width, e.channels, ps, KeyBits(r, s), |ps|)))
  }

  /** The key whose bits sit at the positions `ps` of frame `f`. */
  function HiddenKey(f: Frame, ps: seq<Point>): (k: Key)
    requires |ps| == KEY_POSITIONS && IndicesIn(ps, f.width, f.channels, |f.data|)
    ensures 0 <= k.r < 256 && 0 <= k.s < 128
  {
    var bits := Extracted(f.data, f.width, f.channels, ps);
    BitsRoundTrip(bits);
    Key(BitsValue(bits[..8]), BitsValue(bits[8..]))
  }

  /** What dynamicDecrypt returns when the position generator yields `draws`. */
  function DynamicDecrypted(input: Frame, draws: seq<Point>): (res: Result<Frame, PositionError>)
    requires input.Valid() && InFrame(draws, input.height, input.width)
    ensures res.Ok? <==> PositionsFor(input.height, input.width, draws).Ok?
  {
    match PositionsFor(input.height, input.width, draws)
    case Err(e) => Err(e)
    case Ok(ps) =>
      PositionsValid(input.height, input.width, draws);
      PositionsInBuffer(input, ps);
      var k := HiddenKey(input, ps);
      Ok(Decrypted(input, k.r, k.s))
  }

  /** dynamicEncrypt: positions from the seed, the row cipher, then the key
      bits written into the encrypted frame in place. */
  method DynamicEncrypt(input: Frame, draws: seq<Point>, r: int, s: int) returns (res: Result<Frame, PositionError>)
    requires input.Valid() && input.height < 0x8000_0000 && InFrame(draws, input.height, input.width)
    requires 0 <= r < 256 && 0 <= s < 128
    ensures res == DynamicEncrypted(input, draws, r, s)
  {
    var positions := GetPositions(input.height, input.width, draws);
    if positions.Err? {
      return Err(positions.error);
    }
    var ps := positions.value;
    PositionsValid(input.height, input.width, draws);
    var encrypted := Encrypt(input, r, s);
    var keyBits := EncodeKeyBits(r, s);
    PositionsInBuffer(encrypted, ps);
    var buf := new I8[|encrypted.data|](i requires 0 <= i < |encrypted.data| => encrypted.data[i]);
    assert buf[..] == encrypted.data;
    Embed(buf, encrypted.width, encrypted.channels, ps, keyBits);
    res := Ok(encrypted.(data := buf[..]));
  }

  /** dynamicDecrypt: positions from the seed, the key read back from them,
      then the row cipher undone with that key. */
  method DynamicDecrypt(input: Frame, draws: seq<Point>) returns (res: Result<Frame, PositionError>)
    requires input.Valid() && input.height < 0x8000_0000 && InFrame(draws, input.height, input.width)
    ensures res == DynamicDecrypted(input, draws)
  {
    var positions := GetPositions(input.height, input.width, draws);
    if positions.Err? {
      return Err(positions.error);
    }
    var ps := positions.value;
    PositionsValid(input.height, input.width, draws);
    PositionsInBuffer(input, ps);
    var keyBits := ExtractKeyBits(input.data, input.width, input.channels, ps);
    var r, s := DecodeKeyBits(keyBits);
    var decrypted := Decrypt(input, r, s);
    res := Ok(decrypted);
  }

  /** The dynamic round trip: with the same seed (the same draws), the
      decrypting side reads back exactly the key that was hidden, and its
      output has the input's dimensions and differs from the input only in
      the low bits of the 15 samples that carried the key. */
  lemma DynamicRoundTrip(input: Frame, draws: seq<Point>, r: nat, s: nat, p: nat)
    requires input.Valid() && InFrame(draws, input.height, input.width) && r < 256 && s < 128
    requires PositionsFor(input.height, input.width, draws).Ok? && p < |input.data|
    ensures var e := DynamicEncrypted(input, draws, r, s);
      e.Ok? && e.value.Valid() && InFrame(draws, e.value.height, e.value.width)
    ensures var ps := PositionsFor(input.height, input.width, draws).value;
      var e := DynamicEncrypted(input, draws, r, s).value;
      IndicesIn(ps, e.width, e.channels, |e.data|) && HiddenKey(e, ps) == Key(r, s)
    ensures var out := DynamicDecrypted(DynamicEncrypted(input, draws, r, s).value, draws);
      out.Ok? && out.value.height == input.height && out.value.width == input.width &&
      out.value.channels == input.channels && |out.value.data| == |input.data| &&
      U8(out.value.data[p]) / 2 == U8(input.data[p]) / 2
    ensures var ps := PositionsFor(input.height, input.width, draws).value;
      var out := DynamicDecrypted(DynamicEncrypted(input, draws, r, s).value, draws).value;
      (forall i :: 0 <= i < |ps| ==> ChannelZero(ps[i], input.width, input.channels) != DecryptByteFrom(input.height, input.RowSize(), r, s, p)) ==>
        out.data[p] == input.data[p]
  {
    var h, w, c, rs := input.height, input.width, input.channels, input.RowSize();
    var ps := PositionsFor(h, w, draws).value;
    PositionsValid(h, w, draws);
    var enc := Encrypted(input, r, s);
    PositionsInBuffer(enc, ps);
    FrameSize(enc);
    var bits := KeyBits(r, s);
    var e := enc.(data := Embedded(enc.data, w, c, ps, bits, |ps|));
    assert DynamicEncrypted(input, draws, r, s) == Ok(e);
    ExtractEmbedded(enc.data, h, w, c, ps, bits);
    KeyBitsRoundTrip(r, s);
    assert HiddenKey(e, ps) == Key(r, s);
    var q := DecryptByteFrom(h, rs, r, s, p);
    DecryptByte(e.data, h, rs, r, s, p);
    DecryptByte(enc.data, h, rs, r, s, p);
    DecryptEncrypt(input, r, s);
    assert DecryptData(enc.data, h, rs, r, s)[p] == input.data[p];
    EmbedChangesOnlyLowBits(enc.data, w, c, ps, bits, |ps|, q);
  }
}
