/** scripts/extract-gd-gif-thumbnail-reference.py: `gif` writes a tiny GIF89a file whose
    LZW stream clears the table before every pixel, so all codes stay three bits wide. */
module GifEncoder {
  import opened Wrappers
  import opened Bytes
  import opened GifDecoder

  datatype PackError = StructError | ValueError

  const CLEAR := 4
  const END := 5

  function Colour(k: int): nat { if k % 3 != 0 then 1 else 0 }

  /** The pixels the frame is meant to show: colour 0 at every third position. */
  function Pixels(n: nat): (p: seq<nat>)
    ensures |p| == n
  {
    seq(n, k => Colour(k))
  }

  predicate AllBelow(s: seq<nat>, bound: nat) {
    forall i | 0 <= i < |s| :: s[i] < bound
  }

  function ClearedCodes(pixels: seq<nat>): (codes: seq<nat>)
    ensures |codes| == 2 * |pixels|
  {
    if pixels == [] then [] else [CLEAR, pixels[0]] + ClearedCodes(pixels[1..])
  }

  function Horner8(codes: seq<nat>): nat {
    if codes == [] then 0 else codes[0] + 8 * Horner8(codes[1..])
  }

  function PackedLength(codes: nat): nat { (codes * 3 + 7) / 8 }

  predicate IsU16(x: int) { 0 <= x < 0x1_0000 }

  /** What `struct.pack` demands of the four numbers of a rectangle. */
  predicate Fits(canvas: (int, int), rectangle: (int, int, int, int)) {
    IsU16(canvas.0) && IsU16(canvas.1) &&
    IsU16(rectangle.0) && IsU16(rectangle.1) && IsU16(rectangle.2) && IsU16(rectangle.3)
  }

  // ----- The stream -----

  lemma Pow2Step3(n: nat)
    ensures Pow2(n + 3) == 8 * Pow2(n)
  {
    assert Pow2(n + 3) == 2 * Pow2(n + 2);
    assert Pow2(n + 2) == 2 * Pow2(n + 1);
  }

  lemma {:induction false} HornerAppend(codes: seq<nat>, code: nat)
    ensures Horner8(codes + [code]) == Horner8(codes) + code * Pow2(3 * |codes|)
  {
    if codes == [] {
    } else {
      assert (codes + [code])[1..] == codes[1..] + [code];
      HornerAppend(codes[1..], code);
      var p := Pow2(3 * |codes[1..]|);
      assert Pow2(3 * |codes|) == 8 * p by { Pow2Step3(3 * |codes| - 3); }
      assert code * (8 * p) == 8 * (code * p);
    }
  }

  lemma {:induction false} ClearedCodesAppend(pixels: seq<nat>, pixel: nat)
    ensures ClearedCodes(pixels + [pixel]) == ClearedCodes(pixels) + [CLEAR, pixel]
  {
    if pixels == [] {
      assert pixels + [pixel] == [pixel];
    } else {
      assert (pixels + [pixel])[1..] == pixels[1..] + [pixel];
      ClearedCodesAppend(pixels[1..], pixel);
    }
  }

  /** The packed number fits the bytes the script asks `to_bytes` for. */
  lemma {:induction false} HornerBound(codes: seq<nat>)
    requires AllBelow(codes, 8)
    ensures Horner8(codes) < Pow2(3 * |codes|)
  {
    if codes != [] {
      HornerBound(codes[1..]);
      Pow2Step3(3 * |codes| - 3);
    }
  }

  lemma {:induction false} Pow2Grows(a: nat, b: nat)
    requires a <= b
    ensures Pow2(a) <= Pow2(b)
    decreases b
  {
    if a < b { Pow2Grows(a, b - 1); }
  }

  lemma {:induction false} Pow256IsPow2(n: nat)
    ensures Pow256(n) == Pow2(8 * n)
  {
    if n != 0 {
      Pow256IsPow2(n - 1);
      Pow2Step3(8 * n - 3);
      Pow2Step3(8 * n - 6);
      assert Pow2(8 * n - 6) == 2 * Pow2(8 * n - 7);
      assert Pow2(8 * n - 7) == 2 * Pow2(8 * n - 8);
    }
  }

  /** Reading the packed number three bits at a time yields its first code. */
  lemma ReadOne(codes: seq<nat>, m: nat)
    requires codes != [] && codes[0] < 8
    ensures BitsOf(Horner8(codes), 3 + m) == BitsOf(codes[0], 3) + BitsOf(Horner8(codes[1..]), m)
    ensures ValueOf(BitsOf(codes[0], 3)) == codes[0]
  {
    assert Pow2(3) == 8;
    SplitBits(codes[0], Horner8(codes[1..]), 3, m);
    ValueOfBits(codes[0], 3);
  }

  /** A two-bit root right after a clear code is emitted as itself and adds no entry. */
  lemma RootAfterClear(pixel: nat)
    requires pixel < 4
    ensures Translate(2, Cleared(2), pixel) == Some(([pixel], Cleared(2).(prev := Some([pixel]))))
    ensures Cleared(2).width == 3
  {
    assert Pow2(2) == 4;
  }

  /** Clearing before every pixel is lossless, whatever the pixels, from any three-bit state
      and whatever padding bits follow the end code. */
  lemma {:induction false} StreamDecodes(pixels: seq<nat>, st: Lzw, m: nat)
    requires AllBelow(pixels, 4)
    requires st.width == 3
    requires m >= 3 * (2 * |pixels| + 1)
    ensures Decompress(2, st, BitsOf(Horner8(ClearedCodes(pixels) + [END]), m)) == Some(pixels)
  {
    var codes := ClearedCodes(pixels) + [END];
    var bits := BitsOf(Horner8(codes), m);
    hide Horner8, BitsOf, ValueOf, Pow2, Decompress;
    if pixels == [] {
      assert codes == [END] + [];
      ReadOneOf(END, [], m - 3);
      EndDecodes(st, BitsOf(Horner8([]), m - 3), bits);
    } else {
      var more := ClearedCodes(pixels[1..]) + [END];
      assert codes == [CLEAR] + ([pixels[0]] + more);
      ReadOneOf(CLEAR, [pixels[0]] + more, m - 3);
      ReadOneOf(pixels[0], more, m - 6);
      var st' := Cleared(2).(prev := Some([pixels[0]]));
      StreamDecodes(pixels[1..], st', m - 6);
      ClearThenPixel(st, pixels[0], pixels[1..], BitsOf(Horner8([pixels[0]] + more), m - 3), BitsOf(Horner8(more), m - 6), bits);
      assert [pixels[0]] + pixels[1..] == pixels;
    }
  }

  lemma EndDecodes(st: Lzw, rest: seq<bool>, bits: seq<bool>)
    requires st.width == 3
    requires bits == BitsOf(END, 3) + rest && ValueOf(BitsOf(END, 3)) == END
    ensures Decompress(2, st, bits) == Some([])
  {
    assert Pow2(2) == 4;
    hide BitsOf, ValueOf, Pow2, Translate;
    assert bits[..3] == BitsOf(END, 3);
  }

  lemma ReadOneOf(code: nat, more: seq<nat>, m: nat)
    requires code < 8
    ensures BitsOf(Horner8([code] + more), 3 + m) == BitsOf(code, 3) + BitsOf(Horner8(more), m)
    ensures ValueOf(BitsOf(code, 3)) == code
  {
    ReadOne([code] + more, m);
    assert ([code] + more)[1..] == more;
  }

  /** A clear code and one pixel, from the front of the bits. */
  lemma ClearThenPixel(st: Lzw, pixel: nat, pixels: seq<nat>, tail: seq<bool>, rest: seq<bool>, bits: seq<bool>)
    requires st.width == 3 && pixel < 4
    requires bits == BitsOf(CLEAR, 3) + tail && ValueOf(BitsOf(CLEAR, 3)) == CLEAR
    requires tail == BitsOf(pixel, 3) + rest && ValueOf(BitsOf(pixel, 3)) == pixel
    requires Decompress(2, Cleared(2).(prev := Some([pixel])), rest) == Some(pixels)
    ensures Decompress(2, st, bits) == Some([pixel] + pixels)
  {
    assert Pow2(2) == 4;
    hide BitsOf, ValueOf, Pow2, Translate;
    RootAfterClear(pixel);
    assert tail[..3] == BitsOf(pixel, 3) && tail[3..] == rest;
    assert Decompress(2, Cleared(2), tail) == Some([pixel] + pixels);
    assert bits[..3] == BitsOf(CLEAR, 3) && bits[3..] == tail;
  }

  // ----- The container -----

  function Le16(x: int): (s: seq<byte>)
    requires IsU16(x)
    ensures |s| == 2 && U16(s, 0) == x
  {
    [x % 256, x / 256]
  }

  function Header(canvas: (nat, nat)): (s: seq<byte>)
    requires IsU16(canvas.0) && IsU16(canvas.1)
    ensures |s| == 19
  {
    [0x47, 0x49, 0x46, 0x38, 0x39, 0x61] + Le16(canvas.0) + Le16(canvas.1) + [0x80, 0, 0] +
    [0, 0, 255, 255, 0, 0]
  }

  const CONTROL: seq<byte> := [0x21, 0xF9, 4, 1, 0, 0, 1, 0]

  function Descriptor(r: (nat, nat, nat, nat)): (s: seq<byte>)
    requires IsU16(r.0) && IsU16(r.1) && IsU16(r.2) && IsU16(r.3)
    ensures |s| == 10 && s[0] == 0x2C && s[9] == 0
    ensures U16(s, 1) == r.0 && U16(s, 3) == r.1 && U16(s, 5) == r.2 && U16(s, 7) == r.3
  {
    [0x2C] + Le16(r.0) + Le16(r.1) + Le16(r.2) + Le16(r.3) + [0]
  }

  /** The single data sub-block holding `packed`, its terminator and the trailer. */
  function ImageData(packed: seq<byte>): (s: seq<byte>)
    requires |packed| < 256
  {
    [2, |packed|] + packed + [0, 0x3B]
  }

  /** What follows the header: the optional control block, the descriptor and the data. */
  function Body(r: (nat, nat, nat, nat), transparent: bool, packed: seq<byte>): seq<byte>
    requires IsU16(r.0) && IsU16(r.1) && IsU16(r.2) && IsU16(r.3) && |packed| < 256
  {
    (if transparent then CONTROL else []) + (Descriptor(r) + ImageData(packed))
  }

  function File(canvas: (nat, nat), r: (nat, nat, nat, nat), transparent: bool, packed: seq<byte>): seq<byte>
    requires Fits(canvas, r) && |packed| < 256
  {
    Header(canvas) + Body(r, transparent, packed)
  }

  lemma BlockReads(block: seq<byte>, rest: seq<byte>)
    requires 0 < |block| < 256
    ensures SubBlocks([|block|] + block + [0] + rest) == Some((block, rest))
  {
    var s := [|block|] + block + [0] + rest;
    var end := [0] + rest;
    assert s[1 + |block|..] == end && s[1..1 + |block|] == block;
    assert end[0] == 0 && end[1..] == rest;
    assert SubBlocks(end) == Some(([], rest));
    assert block + [] == block;
  }

  lemma SubBlocksOfImageData(packed: seq<byte>)
    requires 0 < |packed| < 256
    ensures SubBlocks(ImageData(packed)[1..]) == Some((packed, [0x3B]))
  {
    BlockReads(packed, [0x3B]);
    assert ImageData(packed)[1..] == [|packed|] + packed + [0] + [0x3B];
  }

  lemma ImageBlockReads(canvas: (nat, nat), r: (nat, nat, nat, nat), packed: seq<byte>, pixels: seq<nat>,
                        palette: seq<(nat, nat, nat)>, transparent: Option<nat>)
    requires Fits(canvas, r) && 0 < |packed| < 256 && |pixels| == Area(r.2, r.3)
    requires Decompress(2, Cleared(2), BitStream(packed)) == Some(pixels)
    ensures Blocks(canvas, palette, transparent, Descriptor(r) + ImageData(packed))
         == Some(Frame(canvas, palette, transparent, (r.0, r.1), (r.2, r.3), pixels, [0x3B]))
  {
    var d := Descriptor(r);
    var s := (d + ImageData(packed))[1..];
    assert U16(s, 0) == U16(d, 1) && U16(s, 2) == U16(d, 3) && U16(s, 4) == U16(d, 5) && U16(s, 6) == U16(d, 7);
    assert s[8] == 0;
    assert s[9..] == ImageData(packed);
    SubBlocksOfImageData(packed);
    assert ImageBlock(canvas, palette, transparent, s)
        == Some(Frame(canvas, palette, transparent, (r.0, r.1), (r.2, r.3), pixels, [0x3B]));
  }

  lemma ControlReads(canvas: (nat, nat), palette: seq<(nat, nat, nat)>, rest: seq<byte>)
    ensures Blocks(canvas, palette, None, CONTROL + rest) == Blocks(canvas, palette, Some(1), rest)
  {
    hide SubBlocks, ImageBlock;
    var s := CONTROL + rest;
    var block: seq<byte> := [1, 0, 0, 1];
    BlockReads(block, rest);
    assert s[2..] == [|block|] + block + [0] + rest;
  }

  const PALETTE: seq<(nat, nat, nat)> := [(0, 0, 255), (255, 0, 0)]

  const COLOURS: seq<byte> := [0, 0, 255, 255, 0, 0]

  lemma PaletteReads(rest: seq<byte>)
    ensures Palette(COLOURS + rest, 2) == Some((PALETTE, rest))
  {
    var t := COLOURS + rest;
    assert t[3..] == [255, 0, 0] + rest;
    assert t[3..][3..] == rest;
    var none: seq<(nat, nat, nat)> := [];
    assert [(255, 0, 0)] + none == [(255, 0, 0)];
    assert Palette(rest, 0) == Some((none, rest));
    assert Palette(t[3..], 1) == Some(([(255, 0, 0)], rest));
    assert [(0, 0, 255)] + [(255, 0, 0)] == PALETTE;
  }

  lemma HeaderReads(canvas: (nat, nat), rest: seq<byte>)
    requires IsU16(canvas.0) && IsU16(canvas.1)
    ensures FirstFrame(Header(canvas) + rest) == Blocks(canvas, PALETTE, None, rest)
  {
    var s := Header(canvas) + rest;
    assert s[13..] == COLOURS + rest;
    PaletteReads(rest);
    assert Pow2(1) == 2;
    assert OptionalPalette(s[10], s[13..], []) == Some((PALETTE, rest));
    assert s[..3] == [0x47, 0x49, 0x46] && s[3..6] == [0x38, 0x39, 0x61];
    assert U16(s, 6) == canvas.0 && U16(s, 8) == canvas.1;
  }

  lemma AfterHeader(canvas: (nat, nat), r: (nat, nat, nat, nat), transparent: bool, packed: seq<byte>,
                    pixels: seq<nat>)
    requires Fits(canvas, r) && 0 < |packed| < 256 && |pixels| == Area(r.2, r.3)
    requires Decompress(2, Cleared(2), BitStream(packed)) == Some(pixels)
    ensures Blocks(canvas, PALETTE, None, Body(r, transparent, packed))
         == Some(Frame(canvas, PALETTE, if transparent then Some(1) else None, (r.0, r.1), (r.2, r.3),
                       pixels, [0x3B]))
  {
    var image := Descriptor(r) + ImageData(packed);
    ImageBlockReads(canvas, r, packed, pixels, PALETTE, if transparent then Some(1) else None);
    if transparent { ControlReads(canvas, PALETTE, image); } else { assert [] + image == image; }
  }

  /** Every file of the encoder's shape is read back as the frame it describes. */
  lemma FileReads(canvas: (nat, nat), r: (nat, nat, nat, nat), transparent: bool, packed: seq<byte>,
                  pixels: seq<nat>)
    requires Fits(canvas, r) && 0 < |packed| < 256 && |pixels| == Area(r.2, r.3)
    requires Decompress(2, Cleared(2), BitStream(packed)) == Some(pixels)
    ensures FirstFrame(File(canvas, r, transparent, packed))
         == Some(Frame(canvas, PALETTE, if transparent then Some(1) else None, (r.0, r.1), (r.2, r.3),
                       pixels, [0x3B]))
  {
    HeaderReads(canvas, Body(r, transparent, packed));
    AfterHeader(canvas, r, transparent, packed, pixels);
  }

  // ----- The encoder -----

  /** `sum(code << (3 * index) for ...)`. */
  method PackCodes(codes: seq<nat>) returns (total: nat)
    ensures total == Horner8(codes)
  {
    total := 0;
    for index := 0 to |codes|
      invariant total == Horner8(codes[..index])
    {
      HornerAppend(codes[..index], codes[index]);
      assert codes[..index + 1] == codes[..index] + [codes[index]];
      total := total + codes[index] * Pow2(3 * index);
    }
    assert codes[..|codes|] == codes;
  }

  lemma {:induction false} AreaIsProduct(width: nat, height: nat)
    ensures Area(width, height) == width * height
  {
    if height != 0 { AreaIsProduct(width, height - 1); }
  }

  function Codes(area: nat): (codes: seq<nat>)
    ensures |codes| == 2 * area + 1
  {
    ClearedCodes(Pixels(area)) + [END]
  }

  function Packed(area: nat): (packed: seq<byte>)
    ensures |packed| == PackedLength(2 * area + 1)
  {
    ToBytes(Horner8(Codes(area)), PackedLength(2 * area + 1))
  }

  lemma {:induction false} ClearedCodesBelow(pixels: seq<nat>)
    requires AllBelow(pixels, 4)
    ensures AllBelow(ClearedCodes(pixels), 8)
  {
    if pixels != [] { ClearedCodesBelow(pixels[1..]); }
  }

  /** `to_bytes` is given enough bytes, so it never raises OverflowError. */
  lemma PackedFits(area: nat)
    ensures Horner8(Codes(area)) < Pow256(PackedLength(2 * area + 1))
  {
    var size := PackedLength(2 * area + 1);
    ClearedCodesBelow(Pixels(area));
    HornerBound(Codes(area));
    Pow2Grows(3 * (2 * area + 1), 8 * size);
    Pow256IsPow2(size);
  }

  lemma PackedDecodes(area: nat)
    ensures Decompress(2, Cleared(2), BitStream(Packed(area))) == Some(Pixels(area))
  {
    var size := PackedLength(2 * area + 1);
    BitStreamOfToBytes(Horner8(Codes(area)), size);
    RootAfterClear(0);
    StreamDecodes(Pixels(area), Cleared(2), 8 * size);
  }

  /** `codes` as the loop in `gif` builds it. */
  method BuildCodes(area: int) returns (codes: seq<nat>)
    ensures codes == Codes(if area < 0 then 0 else area)
  {
    codes := [];
    var pixel := 0;
    while pixel < area
      invariant 0 <= pixel && (pixel <= area || pixel == 0)
      invariant codes == ClearedCodes(Pixels(pixel))
    {
      assert Pixels(pixel + 1) == Pixels(pixel) + [Colour(pixel)];
      ClearedCodesAppend(Pixels(pixel), Colour(pixel));
      codes := codes + [CLEAR, if pixel % 3 != 0 then 1 else 0];
      pixel := pixel + 1;
    }
    codes := codes + [END];
  }

  /** `file` is read as one frame of the intended pixels, and nothing but the trailer is left.
      Its size is exact. */
  ghost predicate Shows(file: seq<byte>, canvas: (nat, nat), r: (nat, nat, nat, nat), transparent: bool, area: nat) {
    && FirstFrame(file).Some?
    && var frame := FirstFrame(file).value;
    && frame == Frame(canvas, [(0, 0, 255), (255, 0, 0)], if transparent then Some(1) else None,
                      (r.0, r.1), (r.2, r.3), frame.pixels, [0x3B])
    && |frame.pixels| == area && (forall k | 0 <= k < area :: frame.pixels[k] == if k % 3 == 0 then 0 else 1)
    && |file| == 33 + (if transparent then 8 else 0) + ((2 * area + 1) * 3 + 7) / 8
  }

  lemma EncodedShows(canvas: (nat, nat), r: (nat, nat, nat, nat), transparent: bool)
    requires Fits(canvas, r) && |Packed(Area(r.2, r.3))| < 256
    ensures Shows(File(canvas, r, transparent, Packed(Area(r.2, r.3))), canvas, r, transparent, Area(r.2, r.3))
  {
    var area := Area(r.2, r.3);
    PackedDecodes(area);
    FileReads(canvas, r, transparent, Packed(area), Pixels(area));
  }

  method Assemble(canvas: (nat, nat), r: (nat, nat, nat, nat), transparent: bool, packed: seq<byte>)
    returns (result: seq<byte>)
    requires Fits(canvas, r) && |packed| < 256
    ensures result == File(canvas, r, transparent, packed)
  {
    result := Header(canvas);
    if transparent { result := result + CONTROL; }
    result := result + Descriptor(r);
    result := result + ImageData(packed);
  }

  /** The file is produced exactly when every field fits 16 bits and the frame has at most
      339 pixels; a GIF89a reader then sees the intended frame. */
  method Gif(canvas: (int, int), rectangle: (int, int, int, int), transparent: bool)
    returns (r: Result<seq<byte>, PackError>)
    ensures var fits := 0 <= canvas.0 <= 65535 && 0 <= canvas.1 <= 65535 && 0 <= rectangle.0 <= 65535 &&
        0 <= rectangle.1 <= 65535 && 0 <= rectangle.2 <= 65535 && 0 <= rectangle.3 <= 65535;
      (r == Err(StructError) <==> !fits) && (r == Err(ValueError) <==> fits && rectangle.2 * rectangle.3 > 339) && (r.Ok? ==> fits)
    ensures r.Ok? ==> rectangle.2 * rectangle.3 >= 0 && Shows(r.value, canvas, rectangle, transparent, rectangle.2 * rectangle.3)
  {
    var area := rectangle.2 * rectangle.3;
    var codes := BuildCodes(area);
    var total := PackCodes(codes);
    var packed := ToBytes(total, (|codes| * 3 + 7) / 8);
    if !Fits(canvas, rectangle) { return Err(StructError); }
    AreaIsProduct(rectangle.2, rectangle.3);
    assert packed == Packed(area);
    if |packed| > 255 { return Err(ValueError); }
    EncodedShows(canvas, rectangle, transparent);
    var result := Assemble(canvas, rectangle, transparent, packed);
    return Ok(result);
  }
}
