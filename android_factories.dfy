/**
 * The pixel conversion done by rive-android's `JNIDecodeImage` once the
 * platform decoder has handed back its `int[]`: header validation, ARGB to
 * RGBA unpacking, optional premultiplication by alpha with exact rounding,
 * and the opacity flag.
 *
 * The decoder's array is `[width, height, pixel 0, pixel 1, ...]`; each
 * element is a Java `int` whose 32 bits the native code reads as unsigned, so
 * it is modelled here as an integer in [0, 2^32).
 */
module AndroidFactories {

  /** One element of the decoder's result array, read as `uint32_t`. */
  type Word = x: int | 0 <= x < 0x1_0000_0000

  /** One output byte (`uint8_t`). */
  type Byte = x: int | 0 <= x < 256

  const kOpaque: Byte := 255

  // ---------------------------------------------------------------------------
  // Channels of an ARGB word: (p >> 24) & 0xFF, (p >> 16) & 0xFF, ...
  // ---------------------------------------------------------------------------

  /** Bits 24-31: the byte whose multiple of 2^24 the word lies in. */
  function Alpha(p: Word): (c: Byte)
    ensures c * 0x100_0000 <= p < (c + 1) * 0x100_0000
  {
    p / 0x100_0000
  }

  /** Bits 16-23: the byte whose multiple of 2^16 the low 24 bits lie in. */
  function Red(p: Word): (c: Byte)
    ensures c * 0x1_0000 <= p % 0x100_0000 < (c + 1) * 0x1_0000
  {
    ShiftTwice(p, 0x1_0000);
    LowBits(p, 0x1_0000);
    p / 0x1_0000 % 0x100
  }

  /** Bits 8-15: the byte whose multiple of 2^8 the low 16 bits lie in. */
  function Green(p: Word): (c: Byte)
    ensures c * 0x100 <= p % 0x1_0000 < (c + 1) * 0x100
  {
    ShiftTwice(p, 0x100);
    LowBits(p, 0x100);
    p / 0x100 % 0x100
  }

  /** Bits 0-7: the word minus this byte is a multiple of 2^8. */
  function Blue(p: Word): (c: Byte)
    ensures (p - c) % 0x100 == 0
  {
    p % 0x100
  }

  /**
   * The byte of x at position m (m = 2^8 or 2^16) locates x's low bits below
   * m * 2^8: (x / m) % 2^8 is how many whole m's those bits hold.
   */
  lemma LowBits(x: nat, m: nat)
    requires m == 0x100 || m == 0x1_0000
    ensures var c := x / m % 0x100; c * m <= x % (m * 0x100) < (c + 1) * m
  {
    var q, s := x / (m * 0x100), x % (m * 0x100);
    assert x == q * (m * 0x100) + s;
    assert x == (q * 0x100 + s / m) * m + s % m;
    assert x / m == q * 0x100 + s / m;
    assert s / m < 0x100;
    assert x / m % 0x100 == s / m;
  }

  /** The ARGB word with the given channels: the inverse of the four extractors. */
  function PackArgb(r: Byte, g: Byte, b: Byte, a: Byte): (p: Word)
    ensures Alpha(p) == a && Red(p) == r && Green(p) == g && Blue(p) == b
  {
    var ar := a * 0x100 + r;
    var arg := ar * 0x100 + g;
    var p := arg * 0x100 + b;
    assert p / 0x100 == arg && p % 0x100 == b;
    assert arg / 0x100 == ar && arg % 0x100 == g;
    assert ar / 0x100 == a && ar % 0x100 == r;
    ShiftTwice(p, 0x100);
    ShiftTwice(p, 0x1_0000);
    p
  }

  /** Shifting right by 8 bits after shifting by k (k = 8 or 16 bits) is shifting by k + 8 bits. */
  lemma ShiftTwice(x: nat, m: nat)
    requires m == 0x100 || m == 0x1_0000
    ensures x / m / 0x100 == x / (m * 0x100)
  {
    var q, s := x / (m * 0x100), x % (m * 0x100);
    assert x == q * (m * 0x100) + s;
    assert x == (q * 0x100 + s / m) * m + s % m;
    assert x / m == q * 0x100 + s / m;
  }

  /** Every word is the packing of its own four channels. */
  lemma UnpackPack(p: Word)
    ensures PackArgb(Red(p), Green(p), Blue(p), Alpha(p)) == p
  {
    var b1 := p / 0x100;
    assert p == b1 * 0x100 + Blue(p);
    var b2 := b1 / 0x100;
    assert b1 == b2 * 0x100 + Green(p);
    ShiftTwice(p, 0x100);
    ShiftTwice(p, 0x1_0000);
    assert b2 / 0x100 == Alpha(p);
    assert b2 == Alpha(p) * 0x100 + Red(p);
  }

  // ---------------------------------------------------------------------------
  // div255: (value + 128) * 257 >> 16
  // ---------------------------------------------------------------------------

  /**
   * The arithmetic identity behind `div255`: with v = 255 q + s, the value
   * (v + 128) * 257 / 65536 is q when s <= 127 and q + 1 when s >= 128.
   */
  lemma RoundingDivision(v: nat)
    requires v <= 255 * 255
    ensures var r := (v + 128) * 257 / 0x1_0000;
            255 * r - 127 <= v <= 255 * r + 127
  {
    var q, s := v / 255, v % 255;
    assert v == 255 * q + s;
    assert q <= 255;
    var t := (v + 128) * 257;
    assert t == 0x1_0000 * q - q + 257 * (s + 128);
    if s <= 127 {
      assert 0 <= 257 * (s + 128) - q < 0x1_0000;
      assert t / 0x1_0000 == q;
    } else {
      assert 0x1_0000 <= 257 * (s + 128) - q < 2 * 0x1_0000;
      assert t / 0x1_0000 == q + 1;
    }
  }

  /**
   * The source's `div255` on the product of two bytes. It never exceeds
   * 32 bits ((255 * 255 + 128) * 257 < 2^32), and its result is v / 255
   * rounded to the nearest integer (255 is odd, so there are no ties).
   */
  function Div255(v: nat): (r: nat)
    requires v <= 255 * 255
    ensures 255 * r - 127 <= v <= 255 * r + 127
  {
    RoundingDivision(v);
    (v + 128) * 257 / 0x1_0000
  }

  /**
   * `div255(c * a)`: a colour byte premultiplied by an alpha byte. The result
   * is a byte no larger than either factor, 0 for a transparent pixel and the
   * colour itself for an opaque one.
   */
  function Premultiply(c: Byte, a: Byte): (r: Byte)
    ensures r <= a && r <= c
    ensures a == 0 ==> r == 0
    ensures a == 255 ==> r == c
  {
    var v := c * a;
    MulAtMost(c, 255, a);
    MulAtMost(a, 255, 255);
    MulAtMost(a, 255, c);
    assert v <= 255 * a && v <= 255 * c && 255 * a <= 255 * 255;
    assert a == 0 ==> v == 0;
    assert a == 255 ==> v == 255 * c;
    Div255(v)
  }

  /** Multiplication is monotonic in its first factor. */
  lemma {:induction false} MulAtMost(x: nat, y: nat, z: nat)
    requires x <= y
    ensures x * z <= y * z
  {
    if z > 0 {
      MulAtMost(x, y, z - 1);
      assert x * z == x * (z - 1) + x;
      assert y * z == y * (z - 1) + y;
    }
  }

  // ---------------------------------------------------------------------------
  // One pixel
  // ---------------------------------------------------------------------------

  /** A colour channel as written out: premultiplied only when asked and not opaque. */
  function Channel(c: Byte, a: Byte, premultiply: bool): (r: Byte)
    ensures a == kOpaque || !premultiply ==> r == c
    ensures premultiply ==> r <= a && r <= c
  {
    if a != kOpaque && premultiply then Premultiply(c, a) else
      c
  }

  /** The four bytes (r, g, b, a) written for one ARGB word. */
  function PixelRgba(p: Word, premultiply: bool): (px: seq<Byte>)
    ensures |px| == 4 && px[3] == Alpha(p)
    ensures Alpha(p) == kOpaque || !premultiply ==> px[0] == Red(p) && px[1] == Green(p) && px[2] == Blue(p)
    ensures Alpha(p) != kOpaque && premultiply ==>
              && px[0] == Premultiply(Red(p), Alpha(p))
              && px[1] == Premultiply(Green(p), Alpha(p))
              && px[2] == Premultiply(Blue(p), Alpha(p))
    ensures premultiply ==> px[0] <= px[3] && px[1] <= px[3] && px[2] <= px[3]
  {
    var a := Alpha(p);
    [Channel(Red(p), a, premultiply), Channel(Green(p), a, premultiply), Channel(Blue(p), a, premultiply), a]
  }

  // ---------------------------------------------------------------------------
  // Whole images
  // ---------------------------------------------------------------------------

  /** The RGBA byte buffer for a run of ARGB words, four bytes per word, in order. */
  function RgbaBytes(ws: seq<Word>, premultiply: bool): (bytes: seq<Byte>)
    ensures |bytes| == 4 * |ws|
  {
    if ws == [] then []
    else RgbaBytes(ws[..|ws| - 1], premultiply) + PixelRgba(ws[|ws| - 1], premultiply)
  }

  /**
   * The opacity flag after a run of pixels: it starts true and is cleared by
   * every pixel whose alpha is not 255. It holds iff every alpha is 255.
   */
  predicate AllOpaque(ws: seq<Word>): (b: bool)
    ensures b <==> forall k :: 0 <= k < |ws| ==> Alpha(ws[k]) == kOpaque
  {
    ws == [] || (AllOpaque(ws[..|ws| - 1]) && Alpha(ws[|ws| - 1]) == kOpaque)
  }

  /** Bytes 4i .. 4i+3 of the buffer are exactly the bytes of pixel i. */
  lemma {:induction false} RgbaBytesAt(ws: seq<Word>, premultiply: bool, i: nat)
    requires i < |ws|
    ensures RgbaBytes(ws, premultiply)[4 * i .. 4 * i + 4] == PixelRgba(ws[i], premultiply)
  {
    var init := ws[..|ws| - 1];
    var front := RgbaBytes(init, premultiply);
    assert RgbaBytes(ws, premultiply) == front + PixelRgba(ws[|ws| - 1], premultiply);
    if i < |ws| - 1 {
      RgbaBytesAt(init, premultiply, i);
      assert init[i] == ws[i];
      assert RgbaBytes(ws, premultiply)[4 * i .. 4 * i + 4] == front[4 * i .. 4 * i + 4];
    } else {
      assert |front| == 4 * i;
    }
  }

  /** Byte 4i + j of the buffer is byte j of pixel i. */
  lemma {:induction false} RgbaByteAt(ws: seq<Word>, premultiply: bool, i: nat, j: nat)
    requires i < |ws| && j < 4
    ensures RgbaBytes(ws, premultiply)[4 * i + j] == PixelRgba(ws[i], premultiply)[j]
  {
    RgbaBytesAt(ws, premultiply, i);
    assert RgbaBytes(ws, premultiply)[4 * i + j] == RgbaBytes(ws, premultiply)[4 * i .. 4 * i + 4][j];
  }

  /**
   * A premultiplied buffer is a valid premultiplied image: in every pixel each
   * colour byte is at most the alpha byte.
   */
  lemma {:induction false} PremultipliedIsValid(ws: seq<Word>, i: nat, j: nat)
    requires i < |ws| && j < 3
    ensures RgbaBytes(ws, true)[4 * i + j] <= RgbaBytes(ws, true)[4 * i + 3]
  {
    var bytes := RgbaBytes(ws, true);
    var px := PixelRgba(ws[i], true);
    RgbaBytesAt(ws, true, i);
    assert bytes[4 * i + j] == px[j] && bytes[4 * i + 3] == px[3] by {
      assert bytes[4 * i .. 4 * i + 4] == px;
    }
  }

  /** Premultiplication changes nothing in an opaque image. */
  lemma {:induction false} OpaqueIgnoresPremultiply(ws: seq<Word>)
    requires AllOpaque(ws)
    ensures RgbaBytes(ws, true) == RgbaBytes(ws, false)
  {
    if ws != [] {
      var init := ws[..|ws| - 1];
      assert forall k :: 0 <= k < |init| ==> init[k] == ws[k];
      OpaqueIgnoresPremultiply(init);
      assert Alpha(ws[|ws| - 1]) == kOpaque;
    }
  }

  /** Reads an RGBA byte buffer back into ARGB words. */
  function RepackArgb(bytes: seq<Byte>): (ws: seq<Word>)
    requires |bytes| % 4 == 0
    ensures |ws| == |bytes| / 4
  {
    if bytes == [] then []
    else
      var n := |bytes|;
      assert n >= 4;
      RepackArgb(bytes[..n - 4]) + [PackArgb(bytes[n - 4], bytes[n - 3], bytes[n - 2], bytes[n - 1])]
  }

  /** Without premultiplication the conversion loses nothing: repacking gives the words back. */
  lemma {:induction false} StraightRoundTrip(ws: seq<Word>)
    ensures RepackArgb(RgbaBytes(ws, false)) == ws
  {
    if ws != [] {
      var init, last := ws[..|ws| - 1], ws[|ws| - 1];
      var bytes := RgbaBytes(ws, false);
      assert bytes == RgbaBytes(init, false) + PixelRgba(last, false);
      var n := |bytes|;
      assert bytes[..n - 4] == RgbaBytes(init, false);
      StraightRoundTrip(init);
      UnpackPack(last);
      assert bytes[n - 4 ..] == PixelRgba(last, false);
      assert [bytes[n - 4], bytes[n - 3], bytes[n - 2], bytes[n - 1]] == [Red(last), Green(last), Blue(last), Alpha(last)];
      assert ws == init + [last];
    }
  }

  // ---------------------------------------------------------------------------
  // Validation of the decoder's array
  // ---------------------------------------------------------------------------

  /** The three failures that `JNIDecodeImage` logs before returning false. */
  datatype DecodeError =
    | BadArrayLength     // fewer than two elements
    | EmptyImage         // a zero dimension
    | NotEnoughElements  // the pixel words do not match the dimensions
    | ReadsPastEnd       // as written only: the guard passed, but the loop would read past the array

  datatype Result<T> = Ok(value: T) | Err(error: DecodeError)

  /** width * height as the 64-bit `size_t` product of the two header words (it cannot wrap). */
  function PixelCount(raw: seq<Word>): (n: nat)
    requires |raw| >= 2
    ensures n == 0 <==> raw[0] == 0 || raw[1] == 0
    ensures 2 + n < 0x1_0000_0000_0000_0000
  {
    MulAtMost(raw[0], 0xFFFF_FFFF, raw[1]);
    MulAtMost(raw[1], 0xFFFF_FFFF, 0xFFFF_FFFF);
    raw[0] as int * raw[1] as int
  }

  /** The dimensions read from the first two elements, and their product. */
  datatype Header = Header(width: Word, height: Word, pixelCount: nat)

  /**
   * The header checks exactly as written: the third guard rejects arrays that
   * are LONGER than 2 + pixelCount and lets shorter ones through.
   * (`pixelCount` is a 64-bit `size_t` product of two 32-bit values, so it
   * cannot wrap, and neither can 2 + pixelCount.)
   */
  function CheckHeaderAsWritten(raw: seq<Word>): (r: Result<Header>)
    ensures r.Ok? <==> |raw| >= 2 && PixelCount(raw) > 0 && |raw| <= 2 + PixelCount(raw)
    ensures r.Ok? ==> r.value == Header(raw[0], raw[1], PixelCount(raw))
  {
    if |raw| < 2 then Err(BadArrayLength)
    else
      var pixelCount := PixelCount(raw);
      if pixelCount == 0 then Err(EmptyImage)
      else if 2 + pixelCount < |raw| then Err(NotEnoughElements)
      else Ok(Header(raw[0], raw[1], pixelCount))
  }

  /**
   * The header checks as evidently intended ("not enough elements"): reject an
   * array too short to hold every pixel word. Success guarantees that every
   * read raw[2 + i], i < pixelCount, is in bounds.
   */
  function CheckHeader(raw: seq<Word>): (r: Result<Header>)
    ensures |raw| < 2 ==> r == Err(BadArrayLength)
    ensures |raw| >= 2 && PixelCount(raw) == 0 ==> r == Err(EmptyImage)
    ensures r.Ok? <==> |raw| >= 2 && PixelCount(raw) > 0 && 2 + PixelCount(raw) <= |raw|
    ensures r.Ok? ==> r.value == Header(raw[0], raw[1], PixelCount(raw))
  {
    if |raw| < 2 then Err(BadArrayLength)
    else
      var pixelCount := PixelCount(raw);
      if pixelCount == 0 then Err(EmptyImage)
      else if |raw| < 2 + pixelCount then Err(NotEnoughElements)
      else Ok(Header(raw[0], raw[1], pixelCount))
  }

  /** The as-written guard lets [1, 1] through, although pixel 0 (index 2) does not exist. */
  lemma AsWrittenAcceptsMissingPixel()
    ensures var raw: seq<Word> := [1, 1];
            CheckHeaderAsWritten(raw) == Ok(Header(1, 1, 1)) && |raw| < 2 + 1
  {
  }

  /** The as-written guard rejects [1, 1, p, q] although it holds the one pixel word needed. */
  lemma AsWrittenRejectsCompleteArray(p: Word, q: Word)
    ensures var raw: seq<Word> := [1, 1, p, q];
            CheckHeaderAsWritten(raw) == Err(NotEnoughElements) && CheckHeader(raw).Ok?
  {
    var raw: seq<Word> := [1, 1, p, q];
    assert PixelCount(raw) == 1;
  }

  /**
   * The arrays that the as-written code accepts AND reads only in bounds are
   * exactly those of length exactly 2 + pixelCount; on them the corrected
   * check agrees.
   */
  lemma AsWrittenSafeIffExact(raw: seq<Word>)
    ensures (CheckHeaderAsWritten(raw).Ok? && 2 + CheckHeaderAsWritten(raw).value.pixelCount <= |raw|)
            <==> (|raw| >= 2 && PixelCount(raw) > 0 && |raw| == 2 + PixelCount(raw))
    ensures CheckHeaderAsWritten(raw).Ok? && 2 + CheckHeaderAsWritten(raw).value.pixelCount <= |raw|
            ==> CheckHeader(raw) == CheckHeaderAsWritten(raw)
  {
  }

  // ---------------------------------------------------------------------------
  // The decode result
  // ---------------------------------------------------------------------------

  /** What `JNIDecodeImage` writes through its out-parameters on success. */
  datatype Image = Image(width: Word, height: Word, pixels: seq<Byte>, isOpaque: bool)

  /** The pixel words of an accepted array: raw[2 .. 2 + pixelCount]. */
  function PixelWords(raw: seq<Word>, h: Header): (ws: seq<Word>)
    requires 2 + h.pixelCount <= |raw|
    ensures |ws| == h.pixelCount
  {
    raw[2 .. 2 + h.pixelCount]
  }

  /** The specification of the whole conversion. */
  function Decode(raw: seq<Word>, premultiply: bool): (r: Result<Image>)
    ensures r.Ok? <==> |raw| >= 2 && PixelCount(raw) > 0 && 2 + PixelCount(raw) <= |raw|
    ensures r.Ok? ==> |r.value.pixels| == 4 * PixelCount(raw)
    ensures r != Err(ReadsPastEnd)
  {
    match CheckHeader(raw)
    case Err(e) => Err(e)
    case Ok(h) =>
      var ws := PixelWords(raw, h);
      Ok(Image(h.width, h.height, RgbaBytes(ws, premultiply), AllOpaque(ws)))
  }

  /** Decoding fails exactly when a header check fails, with that check's error. */
  lemma DecodeFailures(raw: seq<Word>, premultiply: bool)
    ensures |raw| < 2 ==> Decode(raw, premultiply) == Err(BadArrayLength)
    ensures |raw| >= 2 && PixelCount(raw) == 0 ==> Decode(raw, premultiply) == Err(EmptyImage)
    ensures |raw| >= 2 && PixelCount(raw) > 0 && |raw| < 2 + PixelCount(raw) ==>
              Decode(raw, premultiply) == Err(NotEnoughElements)
    ensures Decode(raw, premultiply).Ok? <==> |raw| >= 2 && PixelCount(raw) > 0 && 2 + PixelCount(raw) <= |raw|
  {
  }

  /** On success: the dimensions are the header words and the buffer holds 4 bytes per pixel. */
  lemma DecodeShape(raw: seq<Word>, premultiply: bool)
    requires Decode(raw, premultiply).Ok?
    ensures var img := Decode(raw, premultiply).value;
            img.width == raw[0] && img.height == raw[1] && |img.pixels| == 4 * (raw[0] as int * raw[1] as int)
  {
  }

  /** On success: bytes 4i .. 4i+3 are the (premultiplied) r, g, b and a of word raw[2 + i]. */
  lemma DecodedPixel(raw: seq<Word>, premultiply: bool, i: nat)
    requires Decode(raw, premultiply).Ok?
    requires i < PixelCount(raw)
    ensures Decode(raw, premultiply).value.pixels[4 * i .. 4 * i + 4] == PixelRgba(raw[2 + i], premultiply)
  {
    var h := CheckHeader(raw).value;
    RgbaBytesAt(PixelWords(raw, h), premultiply, i);
  }

  /** On success: the opacity flag is true iff every pixel word has alpha 255. */
  lemma DecodedOpacity(raw: seq<Word>, premultiply: bool)
    requires Decode(raw, premultiply).Ok?
    ensures Decode(raw, premultiply).value.isOpaque <==>
              forall i :: 2 <= i < |raw| && i < 2 + PixelCount(raw) ==> Alpha(raw[i]) == kOpaque
  {
    var h := CheckHeader(raw).value;
    var ws := PixelWords(raw, h);
    assert forall i :: 0 <= i < |ws| ==> ws[i] == raw[2 + i];
  }

  /**
   * The whole conversion with the guard exactly as written. An array that
   * passes the guard but is shorter than 2 + pixelCount would make the loop
   * read past its end; that case is reported as `ReadsPastEnd` instead of
   * being given a meaning.
   */
  function DecodeAsWritten(raw: seq<Word>, premultiply: bool): (r: Result<Image>)
    ensures r.Ok? <==> |raw| >= 2 && PixelCount(raw) > 0 && |raw| == 2 + PixelCount(raw)
    ensures r == Err(ReadsPastEnd) <==> |raw| >= 2 && PixelCount(raw) > 0 && |raw| < 2 + PixelCount(raw)
    ensures |raw| >= 2 && PixelCount(raw) > 0 && |raw| > 2 + PixelCount(raw) ==> r == Err(NotEnoughElements)
  {
    match CheckHeaderAsWritten(raw)
    case Err(e) => Err(e)
    case Ok(h) =>
      if |raw| < 2 + h.pixelCount then Err(ReadsPastEnd)
      else
        var ws := PixelWords(raw, h);
        Ok(Image(h.width, h.height, RgbaBytes(ws, premultiply), AllOpaque(ws)))
  }

  /**
   * Where the as-written conversion succeeds, the corrected one produces the
   * same image; the two differ only on arrays with trailing words (which the
   * corrected check accepts) and on arrays too short (which it rejects).
   */
  lemma AsWrittenAgreesWhenSafe(raw: seq<Word>, premultiply: bool)
    ensures DecodeAsWritten(raw, premultiply).Ok? ==> Decode(raw, premultiply) == DecodeAsWritten(raw, premultiply)
    ensures DecodeAsWritten(raw, premultiply) == Err(ReadsPastEnd) ==> Decode(raw, premultiply) == Err(NotEnoughElements)
    ensures DecodeAsWritten(raw, premultiply) == Err(NotEnoughElements) ==> Decode(raw, premultiply).Ok?
  {
  }

  // ---------------------------------------------------------------------------
  // The imperative conversion
  // ---------------------------------------------------------------------------

  /**
   * The loop of `JNIDecodeImage`: walks the pixel words, writing four bytes per
   * pixel through an advancing offset, and clears the opacity flag at the first
   * non-opaque pixel.
   */
  method ConvertPixels(raw: seq<Word>, pixelCount: nat, premultiply: bool)
    returns (pixels: seq<Byte>, isOpaque: bool)
    requires 2 + pixelCount <= |raw|
    ensures pixels == RgbaBytes(raw[2 .. 2 + pixelCount], premultiply)
    ensures isOpaque == AllOpaque(raw[2 .. 2 + pixelCount])
  {
    ghost var ws := raw[2 .. 2 + pixelCount];
    var buffer := new Byte[4 * pixelCount];
    var bytes := 0;
    var rawIsOpaque := true;
    for i := 0 to pixelCount
      invariant bytes == 4 * i
      invariant buffer[..bytes] == RgbaBytes(ws[..i], premultiply)
      invariant rawIsOpaque == AllOpaque(ws[..i])
    {
      var p := raw[2 + i];
      assert p == ws[i];
      var a, r, g, b := Alpha(p), Red(p), Green(p), Blue(p);
      if a != kOpaque {
        if premultiply {
          r, g, b := Premultiply(r, a), Premultiply(g, a), Premultiply(b, a);
        }
        rawIsOpaque := false;
      }
      assert [r, g, b, a] == PixelRgba(p, premultiply);
      StorePixel(buffer, bytes, r, g, b, a);
      Extend(ws, i, premultiply);
      bytes := bytes + 4;
    }
    assert ws[..pixelCount] == ws;
    pixels := buffer[..];
    isOpaque := rawIsOpaque;
  }

  /** Growing a prefix of the pixel words by one word grows the buffer by that pixel. */
  lemma Extend(ws: seq<Word>, i: nat, premultiply: bool)
    requires i < |ws|
    ensures RgbaBytes(ws[..i + 1], premultiply) == RgbaBytes(ws[..i], premultiply) + PixelRgba(ws[i], premultiply)
    ensures AllOpaque(ws[..i + 1]) == (AllOpaque(ws[..i]) && Alpha(ws[i]) == kOpaque)
  {
    assert ws[..i + 1][..i] == ws[..i];
    assert forall k :: 0 <= k < i ==> ws[..i + 1][k] == ws[..i][k];
  }

  /** Writes the four bytes r, g, b, a at offsets `bytes` .. `bytes` + 3 and touches nothing else. */
  method StorePixel(buffer: array<Byte>, bytes: nat, r: Byte, g: Byte, b: Byte, a: Byte)
    requires bytes + 4 <= buffer.Length
    modifies buffer
    ensures buffer[..bytes + 4] == old(buffer[..bytes]) + [r, g, b, a]
    ensures buffer[bytes + 4..] == old(buffer[bytes + 4..])
  {
    ghost var before := buffer[..bytes];
    buffer[bytes] := r;
    buffer[bytes + 1] := g;
    buffer[bytes + 2] := b;
    buffer[bytes + 3] := a;
    assert buffer[..bytes + 4] == before + [r, g, b, a];
  }

  /** The caller's out-parameters `width`, `height`, `pixels` and `isOpaque`. */
  class DecodeOutputs {
    var width: Word
    var height: Word
    var pixels: seq<Byte>
    var isOpaque: bool

    constructor ()
      ensures width == 0 && height == 0 && pixels == [] && !isOpaque
    {
      width, height, pixels, isOpaque := 0, 0, [], false;
    }
  }

  /**
   * `JNIDecodeImage` after the platform decoder returned `raw`: true and the
   * outputs written on success, false and the outputs untouched on failure.
   */
  method JNIDecodeImage(raw: seq<Word>, premultiply: bool, out: DecodeOutputs) returns (ok: bool)
    modifies out
    ensures ok <==> Decode(raw, premultiply).Ok?
    ensures !ok ==> unchanged(out)
    ensures ok ==> var img := Decode(raw, premultiply).value;
                   out.width == img.width && out.height == img.height &&
                   out.pixels == img.pixels && out.isOpaque == img.isOpaque
  {
    var arrayCount := |raw|;
    if arrayCount < 2 {
      return false;
    }
    var rawWidth, rawHeight := raw[0], raw[1];
    var pixelCount := rawWidth as int * rawHeight as int;
    if pixelCount == 0 {
      return false;
    }
    if arrayCount < 2 + pixelCount {
      return false;
    }
    out.width, out.height := rawWidth, rawHeight;
    var pixels, isOpaque := ConvertPixels(raw, pixelCount, premultiply);
    out.pixels, out.isOpaque := pixels, isOpaque;
    ok := true;
  }
}
