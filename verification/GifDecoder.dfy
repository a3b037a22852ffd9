/** A reader of the first frame of a GIF89a file, following the GIF89a specification:
    sections 17-23 for the blocks and Appendix F for variable-width LZW. It knows
    nothing about the encoder. */
module GifDecoder {
  import opened Wrappers
  import opened Bytes

  datatype Frame = Frame(
    canvas: (nat, nat),
    palette: seq<(nat, nat, nat)>,
    transparent: Option<nat>,
    corner: (nat, nat),
    size: (nat, nat),
    pixels: seq<nat>,
    trailing: seq<byte>)

  // ----- LZW (Appendix F) -----

  /** Strings by code, the current code width, and the previous code's string. */
  datatype Lzw = Lzw(table: seq<seq<nat>>, width: nat, prev: Option<seq<nat>>)

  /** State after a clear code: the roots, two reserved codes, width one above the minimum. */
  function Cleared(min: nat): Lzw {
    Lzw(seq(Pow2(min), i => [i]) + [[], []], min + 1, None)
  }

  /** One ordinary code: the string it stands for, and the state after it. */
  function Translate(min: nat, st: Lzw, code: nat): Option<(seq<nat>, Lzw)> {
    if st.prev.None? then
      if code < Pow2(min) && code < |st.table| then Some((st.table[code], st.(prev := Some(st.table[code])))) else None
    else if st.prev.value == [] || code > |st.table| || (code < |st.table| && st.table[code] == []) then
      None
    else
      var prev := st.prev.value;
      var entry := if code < |st.table| then st.table[code] else prev + [prev[0]];
      var table := if |st.table| < 4096 then st.table + [prev + [entry[0]]] else st.table;
      var width := if |table| == Pow2(st.width) && st.width < 12 then st.width + 1 else st.width;
      Some((entry, Lzw(table, width, Some(entry))))
  }

  /** Reads codes until end-of-information; running out of bits or a bad code is an error. */
  function Decompress(min: nat, st: Lzw, bits: seq<bool>): Option<seq<nat>>
    decreases |bits|
  {
    if st.width == 0 || |bits| < st.width then None
    else
      var code := ValueOf(bits[..st.width]);
      var rest := bits[st.width..];
      if code == Pow2(min) then Decompress(min, Cleared(min), rest)
      else if code == Pow2(min) + 1 then Some([])
      else
        match Translate(min, st, code)
        case None => None
        case Some((out, next)) =>
          match Decompress(min, next, rest)
          case None => None
          case Some(more) => Some(out + more)
  }

  // ----- Blocks (sections 17-23 and 27) -----

  function U16(s: seq<byte>, at: nat): nat
    requires at + 2 <= |s|
  {
    (s[at] as nat) + 256 * (s[at + 1] as nat)
  }

  /** Pixels in `height` rows of `width`. */
  function Area(width: nat, height: nat): nat {
    if height == 0 then 0 else width + Area(width, height - 1)
  }

  /** Data sub-blocks up to the zero-length terminator, joined, and what follows. */
  function SubBlocks(s: seq<byte>): Option<(seq<byte>, seq<byte>)>
    decreases |s|
  {
    if s == [] then None
    else
      var end: nat := 1 + s[0] as nat;
      if |s| < end then None
      else if end == 1 then Some(([], s[1..]))
      else
        match SubBlocks(s[end..])
        case None => None
        case Some((more, rest)) => Some((s[1..end] + more, rest))
  }

  function Palette(s: seq<byte>, n: nat): Option<(seq<(nat, nat, nat)>, seq<byte>)>
    decreases n
  {
    if n == 0 then Some(([], s))
    else if |s| < 3 then None
    else
      match Palette(s[3..], n - 1)
      case None => None
      case Some((more, rest)) => Some(([(s[0] as nat, s[1] as nat, s[2] as nat)] + more, rest))
  }

  /** The colour table a flags byte announces, or `inherited` when it announces none. */
  function OptionalPalette(flags: byte, s: seq<byte>, inherited: seq<(nat, nat, nat)>)
    : Option<(seq<(nat, nat, nat)>, seq<byte>)>
  {
    if flags >= 128 then Palette(s, Pow2(flags % 8 + 1)) else Some((inherited, s))
  }

  /** An image block, after its 0x2C separator. Interlaced frames are not read. */
  function ImageBlock(canvas: (nat, nat), palette: seq<(nat, nat, nat)>, transparent: Option<nat>,
                      s: seq<byte>): Option<Frame>
  {
    if |s| < 9 || s[8] % 128 >= 64 then None
    else
      match OptionalPalette(s[8], s[9..], palette)
      case None => None
      case Some((colours, data)) =>
        if data == [] || !(2 <= data[0] <= 8) then None
        else
          match SubBlocks(data[1..])
          case None => None
          case Some((packed, rest)) =>
            match Decompress(data[0], Cleared(data[0]), BitStream(packed))
            case None => None
            case Some(pixels) =>
              if |pixels| != Area(U16(s, 4), U16(s, 6)) then None
              else Some(Frame(canvas, colours, transparent, (U16(s, 0), U16(s, 2)), (U16(s, 4), U16(s, 6)),
                              pixels, rest))
  }

  /** Skips extensions, remembering the last graphic control's transparent index. */
  function Blocks(canvas: (nat, nat), palette: seq<(nat, nat, nat)>, transparent: Option<nat>, s: seq<byte>)
    : Option<Frame>
    decreases |s|
  {
    if s == [] then None
    else if s[0] == 0x2C then ImageBlock(canvas, palette, transparent, s[1..])
    else if s[0] != 0x21 || |s| < 2 then None
    else
      match SubBlocks(s[2..])
      case None => None
      case Some((content, rest)) =>
        if |rest| >= |s| then None
        else if s[1] == 0xF9 then
          if |content| != 4 then None
          else Blocks(canvas, palette, if content[0] % 2 == 1 then Some(content[3] as nat) else None, rest)
        else Blocks(canvas, palette, transparent, rest)
  }

  /** "GIF89a" or "GIF87a", the logical screen, the global palette, then blocks. */
  function FirstFrame(s: seq<byte>): Option<Frame> {
    if |s| < 13 || s[..3] != [0x47, 0x49, 0x46] || s[3..6] !in {[0x38, 0x39, 0x61], [0x38, 0x37, 0x61]} then None
    else
      match OptionalPalette(s[10], s[13..], [])
      case None => None
      case Some((palette, rest)) => Blocks((U16(s, 6), U16(s, 8)), palette, None, rest)
  }
}
