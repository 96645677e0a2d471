/**
 * Byte-level specifications of the two frame conversions of the native
 * bridge: an interleaved RGB frame repacked as RGBA, and a disparity map
 * coloured and packed as RGBA. Both lay out four bytes per pixel, the last
 * one an opaque alpha.
 */
module Pixels {

  /** An `unsigned char` / `uint8_t`. */
  newtype byte = x: int | 0 <= x < 0x100

  /** An `unsigned int` of the Android ABI (32 bits). */
  newtype uint32 = x: int | 0 <= x < 0x1_0000_0000

  /** The alpha value every converted pixel carries. */
  const Opaque: byte := 255

  /** The three bytes `colorDisparity` writes into its output array. */
  datatype Color = Color(red: byte, green: byte, blue: byte)

  /**
   * The RGBA image of the first `pixels` pixels of an interleaved RGB frame:
   * pixel by pixel, the red, green and blue bytes in their order, followed
   * by an opaque alpha.
   */
  function Rgba(rgb: seq<byte>, pixels: nat): (rgba: seq<byte>)
    requires 3 * pixels <= |rgb|
    ensures |rgba| == 4 * pixels
  {
    if pixels == 0 then []
    else
      var p := pixels - 1;
      Rgba(rgb, p) + [rgb[3 * p], rgb[3 * p + 1], rgb[3 * p + 2], Opaque]
  }

  /** Pixel `p` of the RGBA image holds pixel `p` of the frame and an opaque alpha. */
  lemma {:induction false} RgbaPixel(rgb: seq<byte>, pixels: nat, p: nat)
    requires 3 * pixels <= |rgb| && p < pixels
    ensures Rgba(rgb, pixels)[4 * p] == rgb[3 * p]
    ensures Rgba(rgb, pixels)[4 * p + 1] == rgb[3 * p + 1]
    ensures Rgba(rgb, pixels)[4 * p + 2] == rgb[3 * p + 2]
    ensures Rgba(rgb, pixels)[4 * p + 3] == Opaque
  {
    if p < pixels - 1 {
      RgbaPixel(rgb, pixels - 1, p);
    }
  }

  /** The RGBA image of a frame depends on nothing but the frame's first `pixels` pixels. */
  lemma {:induction false} RgbaOfPrefix(rgb: seq<byte>, other: seq<byte>, pixels: nat)
    requires 3 * pixels <= |rgb| && 3 * pixels <= |other|
    requires rgb[..3 * pixels] == other[..3 * pixels]
    ensures Rgba(rgb, pixels) == Rgba(other, pixels)
  {
    if pixels > 0 {
      var p := pixels - 1;
      assert rgb[..3 * p] == rgb[..3 * pixels][..3 * p];
      assert other[..3 * p] == other[..3 * pixels][..3 * p];
      assert rgb[3 * p + 2] == rgb[..3 * pixels][3 * p + 2];
      assert other[3 * p + 2] == other[..3 * pixels][3 * p + 2];
      RgbaOfPrefix(rgb, other, p);
    }
  }

  /** The first `pixels` pixels of an RGBA image with the alpha bytes dropped. */
  function DropAlpha(rgba: seq<byte>, pixels: nat): (rgb: seq<byte>)
    requires 4 * pixels <= |rgba|
    ensures |rgb| == 3 * pixels
  {
    if pixels == 0 then []
    else
      var p := pixels - 1;
      DropAlpha(rgba, p) + rgba[4 * p..4 * p + 3]
  }

  /** The repack loses no colour information: dropping alpha gives the frame back. */
  lemma {:induction false} DropAlphaRgba(rgb: seq<byte>, pixels: nat)
    requires 3 * pixels <= |rgb|
    ensures DropAlpha(Rgba(rgb, pixels), pixels) == rgb[..3 * pixels]
  {
    if pixels > 0 {
      var p := pixels - 1;
      DropAlphaOfPrefix(Rgba(rgb, pixels), Rgba(rgb, p), p);
      DropAlphaRgba(rgb, p);
      assert rgb[..3 * pixels] == rgb[..3 * p] + rgb[3 * p..3 * pixels];
    }
  }

  /** Dropping alpha from the first `pixels` pixels reads nothing past them. */
  lemma {:induction false} DropAlphaOfPrefix(rgba: seq<byte>, other: seq<byte>, pixels: nat)
    requires 4 * pixels <= |rgba| && 4 * pixels <= |other|
    requires rgba[..4 * pixels] == other[..4 * pixels]
    ensures DropAlpha(rgba, pixels) == DropAlpha(other, pixels)
  {
    if pixels > 0 {
      var p := pixels - 1;
      assert rgba[..4 * p] == rgba[..4 * pixels][..4 * p];
      assert other[..4 * p] == other[..4 * pixels][..4 * p];
      assert rgba[4 * p..4 * p + 3] == rgba[..4 * pixels][4 * p..4 * p + 3];
      assert other[4 * p..4 * p + 3] == other[..4 * pixels][4 * p..4 * p + 3];
      DropAlphaOfPrefix(rgba, other, p);
    }
  }

  /**
   * The RGBA image of the first `pixels` values of a disparity map: pixel by
   * pixel, the three colour components `colorDisparity` gives for it,
   * followed by an opaque alpha.
   */
  function ColorRgba(disparity: seq<byte>, colorDisparity: (byte, real) -> Color, maxDisparity: real, pixels: nat): (rgba: seq<byte>)
    requires pixels <= |disparity|
    ensures |rgba| == 4 * pixels
  {
    if pixels == 0 then []
    else
      var p := pixels - 1;
      var c := colorDisparity(disparity[p], maxDisparity);
      ColorRgba(disparity, colorDisparity, maxDisparity, p) + [c.red, c.green, c.blue, Opaque]
  }

  /** Pixel `i` of the image is the colour of disparity `i`, made opaque. */
  lemma {:induction false} ColorRgbaPixel(disparity: seq<byte>, colorDisparity: (byte, real) -> Color, maxDisparity: real,
                                          pixels: nat, i: nat)
    requires pixels <= |disparity| && i < pixels
    ensures var c := colorDisparity(disparity[i], maxDisparity);
      && ColorRgba(disparity, colorDisparity, maxDisparity, pixels)[4 * i] == c.red
      && ColorRgba(disparity, colorDisparity, maxDisparity, pixels)[4 * i + 1] == c.green
      && ColorRgba(disparity, colorDisparity, maxDisparity, pixels)[4 * i + 2] == c.blue
      && ColorRgba(disparity, colorDisparity, maxDisparity, pixels)[4 * i + 3] == Opaque
  {
    if i < pixels - 1 {
      ColorRgbaPixel(disparity, colorDisparity, maxDisparity, pixels - 1, i);
    }
  }

  /** The colours of the first `pixels` values of a disparity map, as interleaved RGB. */
  function ColorTriples(disparity: seq<byte>, colorDisparity: (byte, real) -> Color, maxDisparity: real, pixels: nat): (rgb: seq<byte>)
    requires pixels <= |disparity|
    ensures |rgb| == 3 * pixels
  {
    if pixels == 0 then []
    else
      var p := pixels - 1;
      var c := colorDisparity(disparity[p], maxDisparity);
      ColorTriples(disparity, colorDisparity, maxDisparity, p) + [c.red, c.green, c.blue]
  }

  /**
   * The disparity pack is the RGB repack applied to the colour-mapped frame:
   * both conversions lay out pixels and alpha the same way.
   */
  lemma {:induction false} ColorRgbaIsRgbaOfColors(disparity: seq<byte>, colorDisparity: (byte, real) -> Color, maxDisparity: real,
                                                   pixels: nat)
    requires pixels <= |disparity|
    ensures ColorRgba(disparity, colorDisparity, maxDisparity, pixels)
      == Rgba(ColorTriples(disparity, colorDisparity, maxDisparity, pixels), pixels)
  {
    if pixels > 0 {
      var p := pixels - 1;
      var rgb := ColorTriples(disparity, colorDisparity, maxDisparity, pixels);
      var shorter := ColorTriples(disparity, colorDisparity, maxDisparity, p);
      assert rgb[..3 * p] == shorter[..3 * p];
      RgbaOfPrefix(rgb, shorter, p);
      ColorRgbaIsRgbaOfColors(disparity, colorDisparity, maxDisparity, p);
    }
  }

  /**
   * Four consecutive writes at the end of a converted prefix, over a buffer
   * whose rest is `s[k..]`, extend the prefix by the four written bytes and
   * leave the rest from `s[k + 4..]` on.
   */
  lemma WriteFour(prefix: seq<byte>, s: seq<byte>, k: nat, a: byte, b: byte, c: byte, d: byte)
    requires |prefix| == k && k + 4 <= |s|
    ensures (prefix + s[k..])[k := a][k + 1 := b][k + 2 := c][k + 3 := d] == (prefix + [a, b, c, d]) + s[k + 4..]
  {
  }

  /**
   * `std::vector::resize(n)`: the first `min(|s|, n)` elements are kept and
   * any new element is value-initialised to zero.
   */
  function Resized(s: seq<byte>, n: nat): (r: seq<byte>)
    ensures |r| == n
    ensures forall i :: 0 <= i < n && i < |s| ==> r[i] == s[i]
    ensures forall i :: |s| <= i < n ==> r[i] == 0
  {
    if n <= |s| then s[..n] else s + seq(n - |s|, _ => 0)
  }

  /**
   * The conversion of an integer to `unsigned int`: the value itself when it
   * is representable, otherwise the value congruent to it modulo 2^32.
   */
  function UnsignedInt(n: int): (r: uint32)
    ensures 0 <= n < 0x1_0000_0000 ==> r as int == n
    ensures (n - r as int) % 0x1_0000_0000 == 0
  {
    (n % 0x1_0000_0000) as uint32
  }
}
