// Packed 32-bit colours: the RGBA/R/G/B/A/*CHAN macros of
// include/graphics.h (graphics/graphics.h spells the same expressions with
// a COL_ prefix) and the rgba/channel functions of graphics/graphics.c,
// which compute the same bits through `int`. A pixel is its 32-bit
// pattern; `Signed` reads it as the C `int` it is stored in.
module Colour {
  type byte = bv8

  /** `RGBA(r, g, b, a)`: alpha in the top byte, then red, green, blue. */
  function Rgba(r: byte, g: byte, b: byte, a: byte): bv32 {
    ((a as bv32) << 24) | ((r as bv32) << 16) | ((g as bv32) << 8) | (b as bv32)
  }

  function Rgb(r: byte, g: byte, b: byte): bv32 { Rgba(r, g, b, 255) }

  /** A byte as the integer 0..255 that C arithmetic on it sees. */
  function Val(b: byte): (n: int)
    ensures 0 <= n < 256
  {
    b as int
  }

  /** The byte holding the value `x`, counted up from 0 so that its value is plain to the verifier. */
  function ToByte(x: int): (b: byte)
    requires 0 <= x < 256
    ensures Val(b) == x
  {
    if x == 0 then 0 else ToByte(x - 1) + 1
  }

  function R(v: bv32): byte { ((v >> 16) & 0xFF) as byte }
  function G(v: bv32): byte { ((v >> 8) & 0xFF) as byte }
  function B(v: bv32): byte { (v & 0xFF) as byte }
  function A(v: bv32): byte { ((v >> 24) & 0xFF) as byte }

  /** The four channels read back what `Rgba` packed. */
  lemma RgbaChannels(r: byte, g: byte, b: byte, a: byte)
    ensures R(Rgba(r, g, b, a)) == r && G(Rgba(r, g, b, a)) == g
    ensures B(Rgba(r, g, b, a)) == b && A(Rgba(r, g, b, a)) == a
  {
  }

  /** The same read back as the integer values C arithmetic sees. */
  lemma ChannelValues(r: byte, g: byte, b: byte, a: byte)
    ensures Val(R(Rgba(r, g, b, a))) == Val(r) && Val(G(Rgba(r, g, b, a))) == Val(g)
    ensures Val(B(Rgba(r, g, b, a))) == Val(b) && Val(A(Rgba(r, g, b, a))) == Val(a)
  {
    RgbaChannels(r, g, b, a);
  }

  /** Packing the four channels of a pixel gives the pixel back: `Rgba` is a bijection. */
  lemma ChannelsRgba(v: bv32)
    ensures Rgba(R(v), G(v), B(v), A(v)) == v
  {
  }

  /** `RGB` is opaque. */
  lemma RgbOpaque(r: byte, g: byte, b: byte)
    ensures A(Rgb(r, g, b)) == 255 && R(Rgb(r, g, b)) == r && G(Rgb(r, g, b)) == g && B(Rgb(r, g, b)) == b
  {
    RgbaChannels(r, g, b, 255);
  }

  /** `RCHAN(a, b)`: the red byte replaced. */
  function RChan(v: bv32, x: byte): (r: bv32)
    ensures R(r) == x && G(r) == G(v) && B(r) == B(v) && A(r) == A(v)
  {
    (v & !0x00FF0000) | ((x as bv32) << 16)
  }

  /** `GCHAN(a, b)`: the green byte replaced. */
  function GChan(v: bv32, x: byte): (r: bv32)
    ensures G(r) == x && R(r) == R(v) && B(r) == B(v) && A(r) == A(v)
  {
    (v & !0x0000FF00) | ((x as bv32) << 8)
  }

  /** `BCHAN(a, b)`: the blue byte replaced. */
  function BChan(v: bv32, x: byte): (r: bv32)
    ensures B(r) == x && R(r) == R(v) && G(r) == G(v) && A(r) == A(v)
  {
    (v & !0x000000FF) | (x as bv32)
  }

  /** `ACHAN(a, b)`: the alpha byte replaced. */
  function AChan(v: bv32, x: byte): (r: bv32)
    ensures A(r) == x && R(r) == R(v) && G(r) == G(v) && B(r) == B(v)
  {
    (v & !0xFF000000) | ((x as bv32) << 24)
  }

  /** Replacing a channel is the same as packing with that channel changed. */
  lemma ChanIsRepack(v: bv32, x: byte)
    ensures RChan(v, x) == Rgba(x, G(v), B(v), A(v))
    ensures GChan(v, x) == Rgba(R(v), x, B(v), A(v))
    ensures BChan(v, x) == Rgba(R(v), G(v), x, A(v))
    ensures AChan(v, x) == Rgba(R(v), G(v), B(v), x)
  {
    ChannelsRgba(RChan(v, x));
    ChannelsRgba(GChan(v, x));
    ChannelsRgba(BChan(v, x));
    ChannelsRgba(AChan(v, x));
  }

  /** `RGB1(c)`: a grey. */
  function Rgb1(c: byte): (r: bv32)
    ensures R(r) == c && G(r) == c && B(r) == c && A(r) == 255
  {
    Rgb(c, c, c)
  }

  /** `RGBA1(c, a)`: a grey with alpha `a`. */
  function Rgba1(c: byte, a: byte): (r: bv32)
    ensures R(r) == c && G(r) == c && B(r) == c && A(r) == a
  {
    Rgba(c, c, c, a)
  }

  /** The function `rgba1(c)` of graphics/graphics.c, unlike the macro, sets alpha to `c` as well. */
  function Rgba1Fn(c: byte): (r: bv32)
    ensures R(r) == c && G(r) == c && B(r) == c && A(r) == c
  {
    Rgba(c, c, c, c)
  }

  /**
   * `rgba_a` of graphics/graphics.c as written: it masks with the red
   * mask `~0x00FF0000` and ORs the new alpha into the old one.
   */
  function RgbaA(v: bv32, x: byte): (r: bv32)
    ensures R(r) == 0 && G(r) == G(v) && B(r) == B(v) && A(r) == A(v) | x
  {
    (v & !0x00FF0000) | ((x as bv32) << 24)
  }

  /** `rgba_a(RGB(255, 0, 0), 0)` loses the red: the result is opaque black, not an alpha-0 red. */
  lemma RgbaAClearsRed()
    ensures RgbaA(Rgb(255, 0, 0), 0) == Rgb(0, 0, 0)
    ensures AChan(Rgb(255, 0, 0), 0) == Rgba(255, 0, 0, 0)
  {
    ChanIsRepack(Rgb(255, 0, 0), 0);
  }

  /** The intended `rgba_a`: the alpha byte replaced, as `ACHAN` does. */
  function RgbaACorrected(v: bv32, x: byte): (r: bv32)
    ensures A(r) == x && R(r) == R(v) && G(r) == G(v) && B(r) == B(v)
    ensures r == Rgba(R(v), G(v), B(v), x)
  {
    ChanIsRepack(v, x);
    AChan(v, x)
  }

  /** A 32-bit pattern read as the two's-complement C `int` it is stored in. */
  function Signed(v: bv32): (i: int)
    ensures -0x8000_0000 <= i < 0x8000_0000
    ensures i >= 0 ==> i == v as int
    ensures i < 0 ==> i + 0x1_0000_0000 == v as int
  {
    var n := v as int;
    if n < 0x8000_0000 then n else n - 0x1_0000_0000
  }

  const Lime: bv32 := Rgb(0, 255, 0)

  /** The fallback `BLIT_CHROMA_KEY` used when the colour names are switched off. */
  const FallbackChromaKey: int := -16711936

  /** The numeric fallback chroma key is the colour `LIME` it stands in for. */
  lemma ChromaKeyIsLime()
    ensures Signed(Lime) == FallbackChromaKey
    ensures R(Lime) == 0 && G(Lime) == 255 && B(Lime) == 0 && A(Lime) == 255
  {
    assert Lime == 0xFF00FF00;
  }

  /** Key modifiers, include/graphics.h:928-935 and graphics/graphics.h:851-858. */
  datatype KeyMod = Shift | Control | Alt | Super | CapsLock | NumLock

  function KeyModValue(k: KeyMod): bv32 {
    match k
    case Shift => 0x0001
    case Control => 0x0002
    case Alt => 0x0004
    case Super => 0x0008
    case CapsLock => 0x0010
    case NumLock => 0x0020
  }

  /** Window flags, include/graphics.h:1011-1017 and graphics/graphics.h:933-940 (which adds `NONE = 0`). */
  datatype WindowFlag = Resizable | Fullscreen | FullscreenDesktop | Borderless | AlwaysOnTop

  function WindowFlagValue(f: WindowFlag): bv32 {
    match f
    case Resizable => 0x01
    case Fullscreen => 0x02
    case FullscreenDesktop => 0x04
    case Borderless => 0x08
    case AlwaysOnTop => 0x10
  }

  const WindowFlagNone: bv32 := 0

  predicate SingleBit(v: bv32) { v != 0 && v & (v - 1) == 0 }

  /** Each modifier is one bit and no two share one, so any set of them can be OR-ed and tested back. */
  lemma KeyModsAreBits(j: KeyMod, k: KeyMod)
    ensures SingleBit(KeyModValue(k))
    ensures j != k ==> KeyModValue(j) & KeyModValue(k) == 0
  {
  }

  /** Each window flag is one bit, no two share one, and `NONE` has none. */
  lemma WindowFlagsAreBits(f: WindowFlag, g: WindowFlag)
    ensures SingleBit(WindowFlagValue(f)) && WindowFlagValue(f) & WindowFlagNone == 0
    ensures f != g ==> WindowFlagValue(f) & WindowFlagValue(g) == 0
  {
  }
}
