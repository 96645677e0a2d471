/**
 * The native bridge between a Unity application and the depth camera: the
 * process-wide image buffers, their sizing when the device starts, and the
 * two entry points that convert a camera frame into an RGBA image in the
 * caller's buffer and return the frame's sequence number.
 *
 * The camera's output queues are not modelled: the frame a queue delivers
 * is a parameter of the entry point that reads it.
 */
module DepthaiAndroidApi {
  import opened Pixels

  /** The fixed disparity frame size of the stereo node (400p mono cameras). */
  const DisparityWidth: nat := 640
  const DisparityHeight: nat := 400
  const DisparityPixels: nat := DisparityWidth * DisparityHeight

  /** Extended disparity is switched on, which doubles the disparity range. */
  const ExtendedDisparity: bool := true
  const MaxDisparity: real := if ExtendedDisparity then 190.0 else 95.0

  /** The largest value of a C `int`, the type of the conversion cursors. */
  const IntMax: int := 0x7FFF_FFFF

  /** A frame taken from an output queue: its size, pixel bytes and sequence number. */
  datatype ImgFrame = ImgFrame(width: nat, height: nat, data: seq<byte>, sequenceNum: int)

  /** The number of pixels in the first `rows` rows of a frame `width` pixels wide. */
  function PixelsInRows(rows: nat, width: nat): nat {
    if rows == 0 then 0 else PixelsInRows(rows - 1, width) + width
  }

  /** The rows counted so far are one full rectangle of pixels. */
  lemma {:induction false} PixelsInRowsIsProduct(rows: nat, width: nat)
    ensures PixelsInRows(rows, width) == rows * width
  {
    if rows > 0 {
      PixelsInRowsIsProduct(rows - 1, width);
    }
  }

  /** Every row of a frame ends inside the frame. */
  lemma {:induction false} RowInFrame(y: nat, width: nat, height: nat)
    requires y < height
    ensures PixelsInRows(y + 1, width) <= PixelsInRows(height, width)
    decreases height - y
  {
    if y + 1 < height {
      RowInFrame(y + 1, width, height);
    }
  }

  /** The number of pixels of a frame, counted row by row as the conversion walks them. */
  function PixelCount(frame: ImgFrame): nat {
    PixelsInRows(frame.height, frame.width)
  }

  /**
   * What the RGB conversion needs and never checks: the frame holds three
   * bytes per pixel, the buffer has room for four bytes per pixel, and the
   * output cursor stays within `int`.
   */
  predicate RgbFrameFits(frame: ImgFrame, bufferLength: nat) {
    && 3 * PixelCount(frame) <= |frame.data|
    && 4 * PixelCount(frame) <= bufferLength
    && 4 * PixelCount(frame) <= IntMax
  }

  /**
   * Against the buffer sized at start-up, a frame carrying three bytes per
   * pixel fits exactly when it has no more pixels than the configured
   * preview; in particular a frame of the preview size fits.
   */
  lemma {:induction false} PreviewFrameFits(frame: ImgFrame, previewWidth: nat, previewHeight: nat)
    requires |frame.data| == 3 * (frame.width * frame.height)
    requires 4 * (previewWidth * previewHeight) <= IntMax
    ensures RgbFrameFits(frame, previewWidth * previewHeight * 4)
      <==> frame.width * frame.height <= previewWidth * previewHeight
  {
    PixelsInRowsIsProduct(frame.height, frame.width);
  }

  /** `std::copy` of a whole buffer to the front of the caller's buffer. */
  method CopyToUnity(buffer: seq<byte>, unityImageBuffer: array<byte>)
    requires |buffer| <= unityImageBuffer.Length
    modifies unityImageBuffer
    ensures unityImageBuffer[..|buffer|] == buffer
    ensures unityImageBuffer[|buffer|..] == old(unityImageBuffer[|buffer|..])
  {
    forall i | 0 <= i < |buffer| {
      unityImageBuffer[i] := buffer[i];
    }
  }

  /** The state the bridge keeps between calls. */
  class NativeApi {
    /** The RGBA image of the last colour frame. */
    var rgbImageBuffer: seq<byte>
    /** The RGBA image of the last disparity frame. */
    var colorDisparityBuffer: seq<byte>
    /** The preview size the colour camera was configured with. */
    ghost var previewWidth: nat
    ghost var previewHeight: nat
    /** The disparity colour map of the helper header, fixed for the process. */
    const colorDisparity: (byte, real) -> Color

    /** Both buffers sized for the configured frames. */
    ghost predicate Sized()
      reads this
    {
      && |rgbImageBuffer| == 4 * (previewWidth * previewHeight)
      && |colorDisparityBuffer| == 4 * DisparityPixels
    }

    /** Static initialisation: both buffers start empty. */
    constructor (colorDisparity: (byte, real) -> Color)
      ensures this.colorDisparity == colorDisparity
      ensures rgbImageBuffer == [] && colorDisparityBuffer == []
      ensures previewWidth == 0 && previewHeight == 0
    {
      this.colorDisparity := colorDisparity;
      rgbImageBuffer := [];
      colorDisparityBuffer := [];
      previewWidth, previewHeight := 0, 0;
    }

    /**
     * Configures the colour preview size and resizes both buffers to four
     * bytes per pixel of the frames they will receive.
     */
    method StartDevice(rgbWidth: nat, rgbHeight: nat)
      modifies this
      ensures previewWidth == rgbWidth && previewHeight == rgbHeight
      ensures rgbImageBuffer == Resized(old(rgbImageBuffer), rgbWidth * rgbHeight * 4)
      ensures colorDisparityBuffer == Resized(old(colorDisparityBuffer), DisparityWidth * DisparityHeight * 4)
      ensures Sized()
    {
      previewWidth, previewHeight := rgbWidth, rgbHeight;
      rgbImageBuffer := Resized(rgbImageBuffer, rgbWidth * rgbHeight * 4);
      colorDisparityBuffer := Resized(colorDisparityBuffer, DisparityWidth * DisparityHeight * 4);
    }

    /**
     * Repacks an interleaved RGB frame as RGBA in `rgbImageBuffer`, copies the
     * whole buffer to the caller's buffer and returns the frame's sequence
     * number. Bytes past the frame's pixels keep what earlier frames left.
     */
    method GetRgbImage(inRgb: ImgFrame, unityImageBuffer: array<byte>) returns (sequenceNum: uint32)
      requires RgbFrameFits(inRgb, |rgbImageBuffer|)
      requires |rgbImageBuffer| <= unityImageBuffer.Length
      modifies this`rgbImageBuffer, unityImageBuffer
      ensures rgbImageBuffer
        == Rgba(inRgb.data, PixelCount(inRgb)) + old(rgbImageBuffer)[4 * PixelCount(inRgb)..]
      ensures |old(rgbImageBuffer)| == 4 * PixelCount(inRgb) ==> rgbImageBuffer == Rgba(inRgb.data, PixelCount(inRgb))
      ensures unityImageBuffer[..|rgbImageBuffer|] == rgbImageBuffer
      ensures unityImageBuffer[|rgbImageBuffer|..] == old(unityImageBuffer[|rgbImageBuffer|..])
      ensures sequenceNum == UnsignedInt(inRgb.sequenceNum)
    {
      RepackRgb(inRgb.data, inRgb.width, inRgb.height);
      CopyToUnity(rgbImageBuffer, unityImageBuffer);
      sequenceNum := UnsignedInt(inRgb.sequenceNum);
    }

    /**
     * The RGB conversion: walks the frame row by row with one cursor into
     * the frame and one into `rgbImageBuffer`.
     */
    method RepackRgb(imgData: seq<byte>, width: nat, height: nat)
      requires 3 * PixelsInRows(height, width) <= |imgData|
      requires 4 * PixelsInRows(height, width) <= |rgbImageBuffer|
      modifies this`rgbImageBuffer
      ensures rgbImageBuffer
        == Rgba(imgData, PixelsInRows(height, width)) + old(rgbImageBuffer)[4 * PixelsInRows(height, width)..]
    {
      var rgbIndex, argbIndex := 0, 0;
      ghost var done := 0;
      ghost var original := rgbImageBuffer;
      for y := 0 to height
        invariant done == PixelsInRows(y, width) <= PixelsInRows(height, width)
        invariant rgbIndex == 3 * done && argbIndex == 4 * done
        invariant rgbImageBuffer == Rgba(imgData, done) + original[argbIndex..]
      {
        RowInFrame(y, width, height);
        rgbIndex, argbIndex := RepackRow(imgData, width, rgbIndex, argbIndex, done, original);
        done := done + width;
      }
    }

    /**
     * One row of the RGB conversion: the `width` pixels from pixel `done` on
     * are repacked, each cursor advancing over its own bytes.
     */
    method RepackRow(imgData: seq<byte>, width: nat, rgbStart: int, argbStart: int, ghost done: nat, ghost original: seq<byte>)
      returns (rgbIndex: int, argbIndex: int)
      requires rgbStart == 3 * done && argbStart == 4 * done
      requires 3 * (done + width) <= |imgData| && 4 * (done + width) <= |original|
      requires rgbImageBuffer == Rgba(imgData, done) + original[argbStart..]
      modifies this`rgbImageBuffer
      ensures rgbIndex == 3 * (done + width) && argbIndex == 4 * (done + width)
      ensures rgbImageBuffer == Rgba(imgData, done + width) + original[argbIndex..]
    {
      rgbIndex, argbIndex := rgbStart, argbStart;
      for x := 0 to width
        invariant rgbIndex == 3 * (done + x) && argbIndex == 4 * (done + x)
        invariant rgbImageBuffer == Rgba(imgData, done + x) + original[argbIndex..]
      {
        WriteFour(Rgba(imgData, done + x), original, argbIndex,
                  imgData[rgbIndex], imgData[rgbIndex + 1], imgData[rgbIndex + 2], Opaque);
        rgbImageBuffer := rgbImageBuffer[argbIndex := imgData[rgbIndex]];  // red
        argbIndex, rgbIndex := argbIndex + 1, rgbIndex + 1;
        rgbImageBuffer := rgbImageBuffer[argbIndex := imgData[rgbIndex]];  // green
        argbIndex, rgbIndex := argbIndex + 1, rgbIndex + 1;
        rgbImageBuffer := rgbImageBuffer[argbIndex := imgData[rgbIndex]];  // blue
        argbIndex, rgbIndex := argbIndex + 1, rgbIndex + 1;
        rgbImageBuffer := rgbImageBuffer[argbIndex := Opaque];  // alpha
        argbIndex := argbIndex + 1;
      }
    }

    /**
     * Colours each of the 640 by 400 disparity bytes of a frame, packs the
     * colours as RGBA in `colorDisparityBuffer`, copies the whole buffer to
     * the caller's buffer and returns the frame's sequence number.
     */
    method GetColorDisparityImage(inDisparity: ImgFrame, unityImageBuffer: array<byte>) returns (sequenceNum: uint32)
      requires DisparityPixels <= |inDisparity.data|
      requires 4 * DisparityPixels <= |colorDisparityBuffer|
      requires |colorDisparityBuffer| <= unityImageBuffer.Length
      modifies this`colorDisparityBuffer, unityImageBuffer
      ensures colorDisparityBuffer
        == ColorRgba(inDisparity.data, colorDisparity, MaxDisparity, DisparityPixels)
           + old(colorDisparityBuffer)[4 * DisparityPixels..]
      ensures |old(colorDisparityBuffer)| == 4 * DisparityPixels
        ==> colorDisparityBuffer == ColorRgba(inDisparity.data, colorDisparity, MaxDisparity, DisparityPixels)
      ensures unityImageBuffer[..|colorDisparityBuffer|] == colorDisparityBuffer
      ensures unityImageBuffer[|colorDisparityBuffer|..] == old(unityImageBuffer[|colorDisparityBuffer|..])
      ensures sequenceNum == UnsignedInt(inDisparity.sequenceNum)
    {
      var disparityData := inDisparity.data;
      var argbIndex := 0;
      for i := 0 to DisparityWidth * DisparityHeight
        invariant argbIndex == 4 * i
        invariant colorDisparityBuffer
          == ColorRgba(disparityData, colorDisparity, MaxDisparity, i) + old(colorDisparityBuffer)[argbIndex..]
        invariant unchanged(unityImageBuffer)
      {
        var colorPixel := colorDisparity(disparityData[i], MaxDisparity);
        WriteFour(ColorRgba(disparityData, colorDisparity, MaxDisparity, i), old(colorDisparityBuffer), argbIndex,
                  colorPixel.red, colorPixel.green, colorPixel.blue, Opaque);
        colorDisparityBuffer := colorDisparityBuffer[argbIndex := colorPixel.red];
        argbIndex := argbIndex + 1;
        colorDisparityBuffer := colorDisparityBuffer[argbIndex := colorPixel.green];
        argbIndex := argbIndex + 1;
        colorDisparityBuffer := colorDisparityBuffer[argbIndex := colorPixel.blue];
        argbIndex := argbIndex + 1;
        colorDisparityBuffer := colorDisparityBuffer[argbIndex := Opaque];
        argbIndex := argbIndex + 1;
      }
      CopyToUnity(colorDisparityBuffer, unityImageBuffer);
      sequenceNum := UnsignedInt(inDisparity.sequenceNum);
    }
  }
}
