# depthai-android-api: the native frame conversions

This project models the native part of the Android bridge between a Unity
application and a DepthAI camera (`depthai_android_api.cpp`):

- the two process-wide image buffers, `rgbImageBuffer` and
  `colorDisparityBuffer`;
- their sizing in `api_start_device`, at four bytes per pixel of the
  configured colour preview and of the fixed 640 by 400 disparity frame;
- `api_get_rgb_image`, which repacks an interleaved RGB frame as RGBA,
  copies the whole buffer into the caller's buffer and returns the frame's
  sequence number;
- `api_get_color_disparity_image`, which colours every disparity byte,
  packs the colours as RGBA, copies the whole buffer into the caller's
  buffer and returns the frame's sequence number.

Module `Pixels` (`pixels.dfy`) defines the two conversions as functions on
byte sequences. They are recursive on the pixel count. The module also
proves what the conversions promise:

- each output pixel holds its input pixel's channels in order, then an
  opaque alpha;
- dropping the alpha bytes gives the frame back;
- the disparity pack is the RGB repack applied to the colour-mapped frame.

Module `DepthaiAndroidApi` (`depthai_android_api.dfy`) holds the bridge's
state as class `NativeApi`. The two `std::vector` globals become `seq<byte>`
fields. The caller's buffer is an `array<byte>`. The conversion loops are
methods whose invariants tie each buffer to the specification functions.

Modelling decisions:

- The frame a queue delivers (`qRgb->get`, `qDisparity->get`) is a
  parameter of the entry point, an `ImgFrame` value.
- The frame's data is interleaved RGB at three bytes per pixel, because the
  preview is configured interleaved and in RGB order.
- `colorDisparity` comes from a helper header that is not part of this
  model. It is an arbitrary function from a disparity byte and the maximum
  disparity to three colour bytes, fixed when a `NativeApi` is constructed.
- `maxDisparity` is 190.0 because extended disparity is switched on.
- The C++ RGB conversion is one nested loop. The model splits it into
  `RepackRgb` (rows) and `RepackRow` (pixels of one row). Their cursors
  advance exactly as in the source, byte by byte.
- Only the first `4 * width * height` bytes of `rgbImageBuffer` are
  rewritten. Bytes past them keep what earlier frames left, and the copy
  still hands them to the caller. The postconditions say so.
- `getSequenceNum()` is an arbitrary integer. The `unsigned int` result is
  that integer modulo 2^32, as the C++ conversion gives.

## Model

| member | source | states |
|---|---|---|
| Pixels.Rgba | depthai-android-api/depthai-android-api/src/main/cpp/depthai_android_api.cpp:150-162 | the RGBA image of `n` RGB pixels is exactly four bytes per pixel |
| Pixels.RgbaPixel | depthai-android-api/depthai-android-api/src/main/cpp/depthai_android_api.cpp:156-159 | byte `4p`, `4p+1`, `4p+2` of the image is red, green, blue of pixel `p` (bytes `3p`, `3p+1`, `3p+2` of the frame) and byte `4p+3` is 255 |
| Pixels.RgbaOfPrefix | depthai-android-api/depthai-android-api/src/main/cpp/depthai_android_api.cpp:150-162 | the conversion of `n` pixels reads only the first `3n` bytes of the frame |
| Pixels.DropAlphaRgba | depthai-android-api/depthai-android-api/src/main/cpp/depthai_android_api.cpp:156-159 | removing every fourth byte from the RGBA image gives back the first `3n` frame bytes, so the repack loses no colour information |
| Pixels.ColorRgba | depthai-android-api/depthai-android-api/src/main/cpp/depthai_android_api.cpp:178-188 | the coloured image of `n` disparity values is exactly four bytes per value |
| Pixels.ColorRgbaPixel | depthai-android-api/depthai-android-api/src/main/cpp/depthai_android_api.cpp:182-187 | bytes `4i`, `4i+1` and `4i+2` of the coloured image are the three components `colorDisparity` gives for disparity `i` with the maximum disparity, and byte `4i+3` is 255 |
| Pixels.ColorRgbaIsRgbaOfColors | depthai-android-api/depthai-android-api/src/main/cpp/depthai_android_api.cpp:184-187 | the disparity pack equals the RGB repack of the colour-mapped frame: both lay out channels and alpha the same way |
| Pixels.Resized | depthai-android-api/depthai-android-api/src/main/cpp/depthai_android_api.cpp:137-138 | `resize(n)` leaves exactly `n` bytes, keeps the old bytes below `n` and zero-fills any new ones |
| Pixels.UnsignedInt | depthai-android-api/depthai-android-api/src/main/cpp/depthai_android_api.cpp:168 | the returned `unsigned int` is the sequence number itself when it is in range, and is always congruent to it modulo 2^32 |
| DepthaiAndroidApi.PixelsInRowsIsProduct | depthai-android-api/depthai-android-api/src/main/cpp/depthai_android_api.cpp:152-154 | walking `height` rows of `width` pixels visits `height * width` pixels |
| DepthaiAndroidApi.RowInFrame | depthai-android-api/depthai-android-api/src/main/cpp/depthai_android_api.cpp:152-154 | every row the outer loop starts ends within the frame's pixels |
| DepthaiAndroidApi.PreviewFrameFits | depthai-android-api/depthai-android-api/src/main/cpp/depthai_android_api.cpp:137 | against the buffer sized at start-up, an RGB frame fits the conversion if and only if it has no more pixels than the configured preview |
| DepthaiAndroidApi.CopyToUnity | depthai-android-api/depthai-android-api/src/main/cpp/depthai_android_api.cpp:165 | `std::copy` puts the whole buffer at the front of the caller's buffer and leaves the caller's bytes past it unchanged |
| DepthaiAndroidApi.NativeApi.constructor | depthai-android-api/depthai-android-api/src/main/cpp/depthai_android_api.cpp:37 | both global buffers start empty |
| DepthaiAndroidApi.NativeApi.StartDevice | depthai-android-api/depthai-android-api/src/main/cpp/depthai_android_api.cpp:136-138 | after start-up the RGB buffer has `4 * rgbWidth * rgbHeight` bytes and the disparity buffer `4 * 640 * 400`, both resized from their old contents |
| DepthaiAndroidApi.NativeApi.GetRgbImage | depthai-android-api/depthai-android-api/src/main/cpp/depthai_android_api.cpp:144-169 | the buffer's first `4 * width * height` bytes become the RGBA image of the frame and the rest is unchanged (so a frame of the preview size fills all of it); the caller's buffer receives the whole buffer; the result is the frame's sequence number as `unsigned int` |
| DepthaiAndroidApi.NativeApi.RepackRgb | depthai-android-api/depthai-android-api/src/main/cpp/depthai_android_api.cpp:150-162 | after the row loop, the buffer holds the RGBA image of all `height * width` pixels followed by its untouched old tail |
| DepthaiAndroidApi.NativeApi.RepackRow | depthai-android-api/depthai-android-api/src/main/cpp/depthai_android_api.cpp:154-161 | one row advances the RGB cursor by `3 * width` and the RGBA cursor by `4 * width` and extends the converted prefix by that row's pixels |
| DepthaiAndroidApi.NativeApi.GetColorDisparityImage | depthai-android-api/depthai-android-api/src/main/cpp/depthai_android_api.cpp:171-195 | the buffer's first `4 * 640 * 400` bytes become the coloured RGBA image of the disparity map and the rest is unchanged (all of it at its start-up size); the caller's buffer receives the whole buffer; the result is the frame's sequence number as `unsigned int` |

## Left out

- JNI loading, libusb set-up, logging and the log file (`api_start_device` lines 74-80, `api_stop_device`): pure I/O with no effect on the buffers.
- Pipeline and device construction (lines 83-134): calls into the DepthAI library, which is not part of this model. Its only effect modelled is the preview size and the fixed 640 by 400 disparity size.
- The video recording and frame fetching entry points after line 197: they write files and cannot be built as written (a duplicated member and a missing `;` in `video_info`).
- The depth queue `qDepth`: it is created but never read by the modelled entry points.
- The `subpixel` and `lr_check` flags: they configure the stereo node only. `extended_disparity` is modelled as the constant that selects 190.0.
- The internals of `colorDisparity` and its floating-point arithmetic: the helper header is not part of this model, so the colour map is a parameter.
- Blocking on an empty output queue: the frame is a parameter.
- Concurrency: the atomics and simultaneous calls from several threads are not modelled.
- DepthaiAndroidApi.NativeApi.StartDevice: takes the preview size as natural numbers. Negative sizes and an `int` product `rgbWidth*rgbHeight*4` that overflows are not modelled.
- DepthaiAndroidApi.NativeApi.GetRgbImage: requires what the C++ never checks. The frame must hold three bytes per pixel, the buffer must hold four bytes per pixel of the frame, the `int` cursor must not overflow, and the caller's buffer must be at least as long as the global buffer. Outside these the C++ has undefined behaviour.
- DepthaiAndroidApi.NativeApi.GetColorDisparityImage: requires at least 640 by 400 disparity bytes, a buffer of at least four bytes per disparity pixel and a caller's buffer at least as long as the buffer. Outside these the C++ has undefined behaviour.
