# RaspberryPi-Cam-Streamer, modelled in Dafny

This project models the sequential core of a Raspberry Pi camera streamer.
The streamer captures YUYV 4:2:2 frames, converts them to RGB24 and JPEG,
and keeps the JPEG frames in an overwrite-on-full ring. A consumer takes
frames from the ring and serves them to a browser as an MJPEG
(multipart/x-mixed-replace) HTTP stream. Detection boxes can be drawn onto
the RGB frame. A small kernel character driver shows the camera state on a
red and a green LED, driven through ioctl.

The Dafny files follow the C sources one for one:

- `circular_buffer.dfy` (module `FrameRing`) is the frame ring.
  - A class holds the 10-slot array and the two indices.
  - A ghost sequence holds the readable entries, oldest first.
  - Writes and reads are proved against `AfterWrite` and `Read`'s FIFO removal.
  - Whole write histories are proved to keep the newest nine frames.
- `image_encoder.dfy` (module `ImageEncoder`) is the whole-frame YUYV to RGB24 converter.
  - The conversion is specified by the pure function `Converted`, over the
    integer BT.601 channel formulas and `CLIP`.
  - The nested loops of the C code are methods over an `array`, proved against that function.
- `jpeg_encoder.dfy` (module `JpegEncoder`) is the per-scanline converter feeding the JPEG compressor.
  - The compressor is a class that records its parameters and the rows it is handed.
  - The rows are proved to be, in order, slices of the whole-frame conversion of the same input.
- `mjpeg_stream.dfy` (module `MjpegStream`) covers the part header, the frame send and the consumer step.
  - The part header is a byte sequence built from the frame size, with a parser that inverts it.
  - The socket is a sink with a script of per-call outcomes.
  - `free` is a log of released blocks.
- `object_detection.dfy` (module `ObjectDetection`) is in-place pixel, box and detection drawing.
  - It works on an RGB buffer with a row stride.
  - It is specified by pure image functions, with per-pixel lemmas about them.
- `cam_stream.dfy` (module `CamStream`) is the LED driver: its ioctl state machine and module load and unload.
- `base.dfy` (module `Base`) holds the byte type, `Option`, ASCII literals and `Concat`, the concatenation of a sequence of byte sequences, with its lemma `ConcatSnoc`.

Where a comment in the sources and the code differ, the model follows the code:

- The ring holds at most 9 readable frames, not 10. Emptiness is `head == tail`, and a write that makes the indices meet advances `tail`. Writing 1..15 and then draining reads back 7..15.
- The header comment of `kernel/cam_stream.c` says RESET turns both LEDs off. The code drives both lines to 0, which lights both LEDs, and its inline comment calls that yellow (`CamStream.CommandShowsItsLight`).
- `send_mjpeg_frame` writes a single CRLF after the JPEG data, although its doc comment shows a second one (`MjpegStream.FrameOnTheWire`).
- In `draw_detections`, `xmax` and `ymax` are `int` values compared with the `unsigned int` frame size. A negative right or bottom edge therefore compares as a huge unsigned value and is moved to the last column or row. The model keeps this comparison as written (`ObjectDetection.NegativeRightEdgeSpansWidth`).

Some worked values of the integer colour conversion: studio black (Y = 16, U = V = 128) gives (0, 0, 0), studio white (Y = 235) gives (255, 255, 255), and mid-grey (Y = U = V = 128) gives (130, 130, 130), not 128.

## Model

| member | source | states |
|---|---|---|
| FrameRing.Count | src/cb/circular_buffer.c:45-51 | the readable count (head - tail) mod 10 is at most 9, is 0 exactly when head == tail, and counting that many slots on from tail reaches head |
| FrameRing.Slot | src/cb/circular_buffer.c:45 | stepping i slots round the ring stays below BUFFER_SIZE and equals (tail + i) mod 10 |
| FrameRing.AfterWrite | src/cb/circular_buffer.c:42-51 | after a write at most 9 entries stay readable and the newest is the frame just written |
| FrameRing.AfterWritesKeepsNewest | src/cb/circular_buffer.c:42-51 | writes with no reads in between leave exactly the newest min(n, 9) entries of the whole history, in write order |
| FrameRing.WriteStep | src/cb/circular_buffer.c:42-51 | storing at head, advancing head and, when the indices meet, advancing tail keeps the slots and indices in step with AfterWrite; the indices meet exactly when 9 entries were readable |
| FrameRing.ReadStep | src/cb/circular_buffer.c:68-78 | on a non-empty ring entries[tail] is the oldest readable entry, and advancing tail drops exactly that entry |
| FrameRing.CircularBuffer.Init | src/cb/circular_buffer.c:22-25 | both indices are 0 and nothing is readable |
| FrameRing.CircularBuffer.Write | src/cb/circular_buffer.c:39-52 | only slot old(head) changes, to the frame; head advances mod 10; tail advances exactly when head meets it; the readable entries become AfterWrite of the old ones; the ghost evicted entry is the oldest one exactly when 9 were readable |
| FrameRing.CircularBuffer.Read | src/cb/circular_buffer.c:65-79 | an empty ring returns false and leaves output, head and tail as they were; otherwise returns true and entries[tail], the oldest readable entry, and advances tail; the slots never change |
| FrameRing.FillThenDrain | src/cb/circular_buffer.c:39-79 | writing n frames into a fresh ring and reading until false returns the last min(n, 9) frames in write order |
| FrameRing.WriteAll | src/cb/circular_buffer.c:39-52 | repeated writes leave AfterWrites of the old entries and the frames |
| FrameRing.AfterWritesAppend | src/cb/circular_buffer.c:39-52 | one more write extends a write history by exactly one AfterWrite, and at most 9 entries stay readable |
| FrameRing.DrainAll | src/cb/circular_buffer.c:65-79 | reading until false returns every readable entry in order and leaves the ring empty |
| ImageEncoder.ClipIsNearest | src/image/image_encoder.c:20 | CLIP picks the byte nearest its argument and keeps bytes unchanged |
| ImageEncoder.ClipShiftIsFloorDivision | src/image/image_encoder.c:90-92 | the arithmetic shift right by k bits, then CLIP, is CLIP of floor division by 2^k |
| ImageEncoder.ChannelFormulas | src/image/image_encoder.c:75-98 | each output pixel is CLIP((298c + 409e + 128) >> 8), CLIP((298c - 100d - 208e + 128) >> 8), CLIP((298c + 516d + 128) >> 8) with c = Y - 16, d = U - 128, e = V - 128 |
| ImageEncoder.PairIsTwoPixels | src/image/image_encoder.c:75-98 | a group yields the pixel of Y0 and then the pixel of Y1, both with the group's shared U and V |
| ImageEncoder.FrameGroups | src/image/image_encoder.c:54-61 | an even-width frame has width * height / 2 four-byte groups, all inside the input |
| ImageEncoder.ConvertYuyvToRgb | src/image/image_encoder.c:35-102 | a missing input or output gives -1 and changes nothing; otherwise width, height and size = width * height * 3 are set; allocation failure gives -1 with data NULL; success gives 0 and a fresh buffer holding the conversion of the input |
| ImageEncoder.ConvertRows | src/image/image_encoder.c:54-100 | the outer loop over h rows writes exactly the conversion of the first h * w / 2 groups |
| ImageEncoder.ConvertRow | src/image/image_encoder.c:55-99 | one row advances src by 2w bytes and dst by 3w bytes and extends the output by that row's groups |
| ImageEncoder.StorePair | src/image/image_encoder.c:57-98 | the six stores of a group write its two RGB pixels at dst[di..di+6] and nothing else |
| ImageEncoder.ConvertedStep | src/image/image_encoder.c:55-98 | converting one more group appends exactly that group's six bytes |
| ImageEncoder.ConvertedLength | src/image/image_encoder.c:50-61 | n groups convert to 6n bytes, so a frame gives width * height * 3 bytes |
| ImageEncoder.GroupOutput | src/image/image_encoder.c:57-98 | output bytes 6k..6k+5 are the two pixels of input group k |
| ImageEncoder.ConvertReadsPrefix | src/image/image_encoder.c:54-61 | the conversion of n groups depends only on the first 4n input bytes |
| ImageEncoder.ConvertedSplit | src/image/image_encoder.c:54-61 | converting a + b groups is converting a groups followed by the next b groups |
| ImageEncoder.StudioBlack | src/image/image_encoder.c:89-92 | Y = 16, U = V = 128 gives (0, 0, 0) |
| ImageEncoder.StudioWhite | src/image/image_encoder.c:89-92 | Y = 235, U = V = 128 gives (255, 255, 255) |
| ImageEncoder.MidGrey | src/image/image_encoder.c:89-92 | Y = U = V = 128 gives (130, 130, 130) |
| JpegEncoder.Compressor.constructor | src/jpeg/jpeg_encoder.c:63-79 | the compressor starts with the frame's width and height, 3 components, quality 80 and no scanlines written |
| JpegEncoder.Compressor.WriteScanline | src/jpeg/jpeg_encoder.c:129-131 | the compressor keeps a copy of the row and advances next_scanline by one |
| JpegEncoder.ConvertYuyvToJpeg | src/jpeg/jpeg_encoder.c:52-143 | always returns 0; feeds exactly height rows in order; row s is the conversion of the width / 2 groups starting at input offset s * width * 2; together the rows are the whole-frame conversion |
| JpegEncoder.ScanlineFitsAt | src/jpeg/jpeg_encoder.c:88 | scanline s of a complete frame lies inside the input |
| JpegEncoder.FillRow | src/jpeg/jpeg_encoder.c:88-127 | the inner loop fills row[3x..3x+5] for each pair at even x, so that the row is the conversion of the scanline's groups |
| JpegEncoder.RowsMakeFrame | src/jpeg/jpeg_encoder.c:85-132 | the rows fed to the compressor, concatenated, equal the whole-frame converter's output on the same input |
| JpegEncoder.RunsMakeConverted | src/jpeg/jpeg_encoder.c:85-132 | if each of the first k rows is the conversion of its own run of groups, the k rows together are the conversion of all those groups |
| JpegEncoder.ScanlineIsFrameSlice | src/jpeg/jpeg_encoder.c:85-127 | scanline s equals bytes [s * width * 3, (s + 1) * width * 3) of the whole-frame conversion |
| MjpegStream.Decimal | src/http/mjpeg_stream.c:103-105 | %lu prints at least one digit, only digits, and no leading zero |
| MjpegStream.DecimalRoundTrip | src/http/mjpeg_stream.c:103-105 | parsing the printed digits gives back the size |
| MjpegStream.DecimalWidth | src/http/mjpeg_stream.c:103-105 | a number below 10^k prints in at most k digits |
| MjpegStream.HeaderLead | src/http/mjpeg_stream.c:100-104 | the fixed text before the length digits is 51 bytes |
| MjpegStream.PartHeader | src/http/mjpeg_stream.c:99-106 | the part header starts with the boundary line "--frame\r\n", ends with the blank line, and is 55 bytes plus the digits |
| MjpegStream.ContentLength | src/http/mjpeg_stream.c:100-106 | a client's reading of a part header accepts only headers longer than the fixed text |
| MjpegStream.HeaderRoundTrip | src/http/mjpeg_stream.c:99-106 | a client reading the part header recovers the size exactly |
| MjpegStream.HeaderFits | src/http/mjpeg_stream.c:99-106 | for every unsigned long size the header is at most 75 bytes, inside the 256-byte buffer, so snprintf never truncates |
| MjpegStream.HeaderInjective | src/http/mjpeg_stream.c:99-106 | different sizes give different part headers |
| MjpegStream.Taken | src/http/mjpeg_stream.c:109-122 | write returns -1 on failure and otherwise at most the length asked for |
| MjpegStream.Socket.Write | src/http/mjpeg_stream.c:109-122 | the peer's bytes grow by the accepted prefix of the buffer, and the return value is the accepted count or -1 |
| MjpegStream.Transmit | src/http/mjpeg_stream.c:108-124 | a run of writes completes at most as many writes as there are pieces |
| MjpegStream.TransmitIsPrefix | src/http/mjpeg_stream.c:108-124 | the peer always receives a prefix of header, data and trailer; all of it exactly when every write completed, and strictly less otherwise |
| MjpegStream.TransmitToWillingPeer | src/http/mjpeg_stream.c:108-124 | a peer that takes every call whole receives every piece |
| MjpegStream.JpegFrame.constructor | src/image/image_encoder.h:28-31 | a frame is its data pointer and its byte count |
| MjpegStream.Heap.Free | src/http/mjpeg_stream.c:59-66 | free of a block logs it; free(NULL) does nothing |
| MjpegStream.Released | src/http/mjpeg_stream.c:59-66 | finishing a frame releases its data (if not NULL) and then the struct, last |
| MjpegStream.ReleasedOnce | src/http/mjpeg_stream.c:59-66 | each block of a frame is released exactly once |
| MjpegStream.NoDoubleFree | src/http/mjpeg_stream.c:42-69 | over a run of distinct frames no block is ever freed twice, and only blocks of those frames are freed |
| MjpegStream.FramePieces | src/http/mjpeg_stream.c:109-122 | a frame is sent as three writes; only the data write can be empty |
| MjpegStream.FrameOnTheWire | src/http/mjpeg_stream.c:109-124 | a frame on the wire is header + data[0..size) + one CRLF: it starts with the boundary line and ends with a single CRLF |
| MjpegStream.SendStatus | src/http/mjpeg_stream.c:109-124 | the status is 0 exactly when all three writes completed |
| MjpegStream.SendMjpegFrame | src/http/mjpeg_stream.c:91-125 | a NULL frame, NULL data or zero size returns -1 and writes nothing; otherwise the peer receives what the three writes delivered, in order; the first short write returns -2, -3 or -4 for header, data or trailer; 0 when all complete |
| MjpegStream.SendHttpHeader | src/http/http_server.c:128-145 | the response header goes out in one write; 0 exactly when the peer takes all of it, and then it has received the header; -1 otherwise; in every case the peer has received the prefix of the header that the one write delivered; the socket's script advances by one call |
| MjpegStream.BoundaryAgrees | src/http/http_server.c:131-136 | the boundary parameter of the response header, preceded by "--", is the line every part header starts with |
| MjpegStream.SendFrames | src/http/mjpeg_stream.c:42-69 | an empty ring returns 0 and sends and frees nothing; otherwise the oldest frame is removed and sent; its data and struct are freed once whatever the outcome; returns -1 on a failed send and 0 on a complete one; the peer receives what the three writes delivered and the socket's script advances past the calls made; a frame with NULL data or size 0 sends nothing, consumes no call and returns -1 |
| ObjectDetection.RowStartGrows | src/detection/object_detection.cpp:320 | later rows start at least one stride further on |
| ObjectDetection.RowStartIsProduct | src/detection/object_detection.cpp:320 | row y starts at y * stride |
| ObjectDetection.PixelInBuffer | src/detection/object_detection.cpp:315-324 | the three bytes of an in-frame pixel lie inside the buffer |
| ObjectDetection.PixelsDisjoint | src/detection/object_detection.cpp:320-324 | distinct pixels, or distinct channels, never share a byte when stride >= 3 * width |
| ObjectDetection.PaintPixelEffect | src/detection/object_detection.cpp:315-324 | painting (x, y) sets exactly its three bytes to r, g, b when it is in the frame; every other pixel byte is unchanged |
| ObjectDetection.PaintPixelKeepsOthers | src/detection/object_detection.cpp:315-324 | painting a pixel never changes row padding or bytes past the last row |
| ObjectDetection.HSweepEffect | src/detection/object_detection.cpp:278-281 | the first loop colours rows y0 and y1 at columns x0..x1 and leaves other pixels alone |
| ObjectDetection.HSweepKeepsOthers | src/detection/object_detection.cpp:278-281 | the first loop writes no byte outside the frame's pixels |
| ObjectDetection.VSweepEffect | src/detection/object_detection.cpp:284-287 | the second loop colours columns x0 and x1 at rows y0..y1 and leaves other pixels alone |
| ObjectDetection.VSweepKeepsOthers | src/detection/object_detection.cpp:284-287 | the second loop writes no byte outside the frame's pixels |
| ObjectDetection.BoxColoursOutline | src/detection/object_detection.cpp:272-288 | after draw_box an in-frame pixel has the colour exactly when it is on the rectangle's outline, and is unchanged otherwise |
| ObjectDetection.BoxStaysInFrame | src/detection/object_detection.cpp:272-288 | draw_box never writes row padding or past the last row, whatever its corners |
| ObjectDetection.DrawPixel | src/detection/object_detection.cpp:311-325 | the buffer becomes the pixel painted at (x, y), which is no change outside the frame |
| ObjectDetection.DrawBox | src/detection/object_detection.cpp:272-288 | for x1 and y1 below INT_MAX, the buffer becomes the rectangle's image: both horizontal edges column by column, then both vertical edges row by row |
| ObjectDetection.AsUnsigned | src/detection/object_detection.cpp:249-250 | an int compared with an unsigned int keeps its value when non-negative and has 2^32 added when negative |
| ObjectDetection.ClampBox | src/detection/object_detection.cpp:247-250 | after clamping, 0 <= xmin, 0 <= ymin, xmax <= width - 1 and ymax <= height - 1 |
| ObjectDetection.ClampBoxCoordinates | src/detection/object_detection.cpp:247-250 | a negative low corner becomes 0 and others are kept; a high corner inside the frame is kept; one at or past the size, or negative, becomes size - 1 |
| ObjectDetection.NegativeRightEdgeSpansWidth | src/detection/object_detection.cpp:249 | a box lying left of the frame gets its right edge moved to the last column, so its top edge spans the whole width |
| ObjectDetection.DetectionsColourOutlines | src/detection/object_detection.cpp:238-254 | after drawing the detections an in-frame pixel is (255, 0, 0) exactly when it lies on some clamped box's outline, and is unchanged otherwise |
| ObjectDetection.OnSomeOutlineMeans | src/detection/object_detection.cpp:238-254 | "on some outline" holds exactly when one of the first n clamped boxes has the pixel on its outline |
| ObjectDetection.DetectionsStayInFrame | src/detection/object_detection.cpp:238-254 | drawing the detections never writes row padding or past the last row |
| ObjectDetection.DetectionStepColours | src/detection/object_detection.cpp:247-253 | drawing box n - 1 gives an in-frame pixel the box colour exactly when it is on that clamped box's outline, and leaves it as the first n - 1 boxes left it otherwise |
| ObjectDetection.DetectionStepStaysInFrame | src/detection/object_detection.cpp:247-253 | drawing one more box leaves every byte that is not a pixel byte as it was |
| ObjectDetection.DrawDetection | src/detection/object_detection.cpp:241-253 | one loop pass clamps box i and draws it in red, taking the buffer from the first i boxes drawn to the first i + 1 |
| ObjectDetection.DrawDetections | src/detection/object_detection.cpp:231-255 | a missing result leaves the buffer unchanged; otherwise the buffer becomes every clamped box drawn in red, in order |
| CamStream.Io | kernel/cam_stream_ioctl.h:15-24 | a command code carries the magic in its type byte and the number in its low byte |
| CamStream.CommandCodes | kernel/cam_stream_ioctl.h:15-24 | START, STOP and RESET are 0x6B01, 0x6B02 and 0x6B03 |
| CamStream.IoctlResult | kernel/cam_stream.c:159-162 | ioctl returns 0 exactly for the three commands and -EINVAL otherwise |
| CamStream.CommandShowsItsLight | kernel/cam_stream.c:123-158 | with the lines ready, START leaves (red, green) = (1, 0), which is green; STOP leaves (0, 1), which is red; RESET leaves (0, 0), which is yellow |
| CamStream.NoChangeWithoutLinesOrCommand | kernel/cam_stream.c:131-160 | without gpio_ready, or for an unknown code, no line changes |
| CamStream.LatestCommandWins | kernel/cam_stream.c:121-163 | with the lines ready and the latest code a valid command, the LEDs show that command's light, whatever came before |
| CamStream.NotReadyIgnoresAll | kernel/cam_stream.c:135-157 | without gpio_ready no sequence of commands changes a line |
| CamStream.Driver.constructor | kernel/cam_stream.c:46-60 | before loading nothing is registered, no descriptor is held and gpio_ready is false |
| CamStream.Driver.Init | kernel/cam_stream.c:199-264 | a failed registration, class or node creation undoes the earlier steps and returns its error; otherwise returns 0; gpio_ready holds exactly when gpio_to_desc finds descriptors for both LED_RED_GPIO (571 + 21) and LED_GREEN_GPIO (571 + 20), and then the lines are (0, 1), showing red; a missing descriptor releases any descriptor held |
| CamStream.Driver.Ioctl | kernel/cam_stream.c:121-163 | returns IoctlResult of the code; the lines follow the command only when gpio_ready; nothing else changes |
| CamStream.Driver.Exit | kernel/cam_stream.c:280-308 | with gpio_ready both lines go to 1 (dark) and the descriptors are released; then the node, class and registration are removed |

## Left out

- The V4L2 capture path (`src/camera/camera.c`), the socket set-up and accept loop (`src/http/http_server.c`) and `src/main.c` are device and socket plumbing. They are not part of this model; only the fixed response header of `send_mjpeg_http_header` is modelled.
- JPEG compression itself (libjpeg, and `convert_rgb_to_jpeg`) is a foreign library. The compressor is modelled only at its scanline interface, as the rows it receives.
- TFLite model loading and inference (`src/detection/detection.cpp`, `src/detection/detector.cpp`, the start of `object_detection.cpp`) use foreign calls and float tensors. They are not part of this model.
- The float-to-pixel scaling of `draw_detections` (`object_detection.cpp:241-244`) is floating point. The model takes detection boxes already in integer pixel coordinates.
- `resize_rgb_frame_nn` and `src/image/image_processor.c` do not compile as written. They are not part of this model.
- The mutex around `cb_read` in `send_frames` is left out: the ring is modelled with sequential calls, and concurrency is not modelled.
- The earlier draft driver `cam_stream.c` at the repository root, and the test programs, are not part of this model.
- `printk`, `printf`, `fprintf` and `perror` logging is left out.
- `rgb->stride` is not a field of `struct rgb_frame`. Drawing takes the stride as a parameter, with `stride >= 3 * width`, and a buffer holding `height` rows of it.
- Memory allocation is modelled as an outcome passed in (`allocates`). The unchecked `malloc` of the JPEG row buffer is modelled as always succeeding.
- The socket is modelled by a script of per-call outcomes (whole, short, failure). Blocking, signals and partial retries are left out.
- The kernel services (`register_chrdev`, `class_create`, `device_create`, `gpio_to_desc`) are modelled by their outcomes, passed in to `Init`.
- `gpiod_direction_output` failures are only logged by the driver and are not modelled.
- The lines start at level 1 (dark) before the module is loaded. The driver itself never reads them.
- FrameRing.CircularBuffer.Write: the evicted handle is reported only as a ghost value. The ring does not free it, and the model does not follow that frame any further.
- ImageEncoder.ConvertYuyvToRgb: requires width * height * 3 to fit the 32-bit `unsigned int` it is computed in. A wrapped `size` is not modelled.
- ImageEncoder.ConvertYuyvToRgb: requires an even width and a complete input of width * height * 2 bytes. With an odd width the C loop still handles pixels in pairs, six output bytes each. It then reads past the input and writes past the width * height * 3 output buffer, which is not modelled.
- JpegEncoder.ConvertYuyvToJpeg: requires a non-negative, even width, a non-negative height and a complete input. With an odd width the C loop reads past the input row and writes six bytes for its last pair, past the width * 3 row buffer. Negative dimensions and these out-of-bounds accesses are not modelled.
- JpegEncoder.ConvertYuyvToJpeg: requires width * height * 2 to be at most 2^32. The row offset `next_scanline * width * 2` is computed in unsigned 32-bit `JDIMENSION` arithmetic and would wrap for larger frames, reading a row from the wrong place; that wrap is not modelled. The `int` product `width * 3` sizing the row buffer is likewise taken to be exact.
- MjpegStream.SendMjpegFrame: requires a non-NULL frame's `size` to fit an `unsigned long` and its buffer to hold at least `size` bytes.
- ObjectDetection.DrawBox: requires x1 and y1 below INT_MAX. With x1 or y1 equal to INT_MAX the `int` loop counter overflows (undefined behaviour) instead of leaving the loop; that case is not modelled. Every call from `draw_detections` meets the bound, since clamped maxima are at most width - 1 and height - 1.
- ObjectDetection.DrawDetections: requires the frame's width and height to be below 2^31, so that `width - 1` fits an `int`.
- CamStream.Driver.Exit: requires a successful load (registration, class and node all present). The kernel only unloads a module whose load succeeded.
