# Camera-stream framing, modelled in Dafny

An embedded camera device captures a grayscale BMP image and classifies it
as Rock, Paper or Scissors. For every image it writes two messages to one
TCP connection:

- the frame message `FRAME_START` + image + `FRAME_END`;
- the line `PREDICTION: <label>\n`.

A desktop viewer reads that connection in chunks into a growable buffer.
After each chunk it looks for the first `BM`, the BMP magic. It reads the
little-endian 32-bit file size two bytes after the magic. When that many
bytes are buffered it cuts the frame out and keeps only what follows.

The project models both byte-level halves and proves how they fit
together.

- `bytes.dfy` (`Bytes`): bytes, `Option`, and the UTF-8 encoding that
  `str.encode()` applies to the prediction line.
- `bmp_header.dfy` (`BmpHeader`): the `BM` search (`bytearray.find`), the
  `bfSize` field (`struct.unpack("<I")`) and its encoder, and facts about
  where the magic can occur.
- `viewer.dfy` (`Viewer`): one iteration of the receive loop as the pure
  function `Step(buffer, chunk)`, and the whole loop, `RunLoop`, over a
  sequence of received chunks.
- `device.dfy` (`Device`): `get_max_index`, the label lookup, and the two
  message encoders with their inverses.
- `stream.dfy` (`Stream`): the two sides together. The viewer's step
  recovers each image the device sends, on its own or after a prediction
  line, and the loop recovers the whole stream in order.

Where the code does less than a reader might expect, the model follows
it:

- Only one extraction is attempted per received chunk, so a second complete
  frame stays buffered until the next non-empty chunk arrives
  (`Viewer.StepOneFramePerChunk`).
- As a result, what the loop emits depends on how the bytes were split into
  chunks (`Viewer.RunDependsOnChunking`). The invariant "any chunking emits
  the same frames" does not hold for this code.
- There is no cap on the declared size and no framing-error outcome. A huge
  `bfSize` simply makes the loop wait (`BodyIncomplete`).
- A declared size of 0 emits an empty frame and keeps the buffer from the
  same header, so the next non-empty chunk finds that header again
  (`Viewer.StepZeroSizeRefindsHeader`). This is a fact about single steps
  of the buffer logic; see "## Left out" for what the decoder does with
  the empty frame.
- No receiver parses the `FRAME_START`/`FRAME_END` wrapper. `Device.UnwrapFrame`
  is a reference inverse, used only to state the round trip.

## Model

| member | source | states |
|---|---|---|
| BmpHeader.FindMagic | streaming_client_cnn.py:30-32 | the result is absent exactly when the buffer holds no `BM`, and otherwise is the lowest index where `BM` occurs |
| BmpHeader.DecodeU32LE | streaming_client_cnn.py:36 | `struct.unpack("<I")`: four bytes read least significant first give a value below 2^32 |
| BmpHeader.EncodeU32LE | streaming_client_cnn.py:36 | `struct.pack("<I")`, the writer side of the field, which the source never calls: four bytes, the inverse of `DecodeU32LE` by the two round-trip lemmas below |
| BmpHeader.DeclaredSizeBytes | streaming_client_cnn.py:36 | the size read at a header is b[s+2] + 256·b[s+3] + 65536·b[s+4] + 16777216·b[s+5] |
| BmpHeader.DeclaredSize | streaming_client_cnn.py:35-36 | the size field, read only when six header bytes are buffered, lies below 2^32 |
| BmpHeader.DecodeEncodeU32 | streaming_client_cnn.py:36 | unpacking a packed 32-bit number returns it |
| BmpHeader.EncodeDecodeU32 | streaming_client_cnn.py:36 | packing an unpacked four-byte field returns the same four bytes, so field and value determine each other |
| BmpHeader.HeaderAfterDrop | streaming_client_cnn.py:46 | dropping the bytes before a header keeps its magic and its declared size |
| BmpHeader.FirstMagicAfterPrefix | streaming_client_cnn.py:30 | after any prefix with no `BM`, the first magic found is where a well-formed BMP file starts (no `BM` can straddle the two, since the file starts with `B`) |
| Viewer.Extract | streaming_client_cnn.py:30-46 | no header exactly when there is no `BM`; otherwise the first magic; waiting when fewer than six header bytes or fewer than start+size bytes are buffered; on a cut, discarded prefix ++ frame ++ rest is the buffer, the frame has the declared length, the prefix holds no `BM`, and a frame of two or more bytes starts with `BM` |
| Viewer.Step | streaming_client_cnn.py:21-46 | an empty chunk stops the loop; a step that emits nothing leaves the buffer exactly old buffer ++ chunk; a step that emits gives old buffer ++ chunk == skipped ++ frame ++ new buffer, with no `BM` in the skipped bytes |
| Viewer.StepEmitsNothingIff | streaming_client_cnn.py:31-42 | a step emits nothing if and only if there is no `BM`, or the size field is incomplete, or the body is incomplete |
| Viewer.FirstMagicUnique | streaming_client_cnn.py:30 | `find` has only one answer |
| Viewer.StepExtractsAtFirstMagic | streaming_client_cnn.py:41-46 | when the whole declared frame is buffered, the frame is buffer[s..s+size] and the new buffer is buffer[s+size..] |
| Viewer.StepZeroSizeRefindsHeader | streaming_client_cnn.py:41-46 | declared size 0 emits an empty frame and keeps the buffer from the same `BM`, so the next step emits another empty frame and drops nothing (a fact about steps of the buffer logic; the real viewer's decoder stops on the empty frame, see "## Left out") |
| Viewer.StepEmptyHeaderAgain | streaming_client_cnn.py:41-46 | a buffer that starts with a zero-size header keeps emitting empty frames and only grows |
| Viewer.StepSizeOneDropsOnlyB | streaming_client_cnn.py:41-46 | declared size 1 emits the single `B` and keeps everything after it |
| Viewer.StepCutsFileAfterNoise | streaming_client_cnn.py:30-46 | bytes with no `BM`, then a well-formed file, then anything: the step emits exactly the file, skips exactly those bytes and keeps what follows |
| Viewer.StepCutsLeadingFile | streaming_client_cnn.py:30-46 | a buffer that starts with a well-formed file emits exactly that file |
| Viewer.StepOneFramePerChunk | streaming_client_cnn.py:21-46 | two complete files in one chunk: only the first is emitted; the second stays buffered, is not emitted when the stream ends, and is emitted by the next non-empty chunk |
| Viewer.RunLoop | streaming_client_cnn.py:21-26 | the loop consumes a prefix of the chunks, every one of them non-empty; it ends early exactly at the first empty chunk; it emits at most one frame per chunk fed |
| Viewer.RunClosesOnEmpty | streaming_client_cnn.py:24-26 | an empty chunk ends the loop with the buffer unchanged and nothing emitted |
| Viewer.RunAfterStep | streaming_client_cnn.py:21-46 | the loop is its first step followed by the loop over the remaining chunks |
| Viewer.RunDependsOnChunking | streaming_client_cnn.py:21-46 | two files received in one chunk yield one frame and leave the second buffered; received in two chunks they yield both |
| Viewer.StepConservesBytes | streaming_client_cnn.py:45-46 | old buffer ++ chunk equals the discarded prefix, the frame and the new buffer, in order |
| Viewer.RunReceivesFedChunks | streaming_client_cnn.py:24-27 | the bytes received are exactly the chunks fed before the loop ended |
| Viewer.RunConservesBytes | streaming_client_cnn.py:21-46 | old buffer ++ all received bytes equals every discarded prefix and frame, in order, followed by the final buffer: no byte is lost or duplicated |
| Viewer.RunSkipsOnlyNoise | streaming_client_cnn.py:30-46 | no discarded prefix of the whole run holds a `BM` |
| Device.MaxIndexFrom | streaming_serverCNN_EIH.py:49-51 | the left-to-right scan ends at the first position holding the largest score |
| Device.GetMaxIndex | streaming_serverCNN_EIH.py:49-51 | none exactly for an empty array; otherwise the index k with arr[k] >= every entry and arr[j] < arr[k] for every j < k, and no other |
| Device.FirstMaxUnique | streaming_serverCNN_EIH.py:51 | at most one index is the first maximum |
| Device.Predict | streaming_serverCNN_EIH.py:108-109 | the label at the first maximal index, or none where Python raises (empty scores, or an index past the last label) |
| Device.PredictionIsClassLabel | streaming_serverCNN_EIH.py:82-109 | with one score per label, the prediction always exists and is "Rock", "Paper" or "Scissors" |
| Device.FrameStartSpelling | streaming_serverCNN_EIH.py:112 | the start marker's bytes are the encoding of `FRAME_START` |
| Device.FrameEndSpelling | streaming_serverCNN_EIH.py:112 | the end marker's bytes are the encoding of `FRAME_END` |
| Device.FrameMessage | streaming_serverCNN_EIH.py:112 | the message is |image| + 20 bytes long, starts with `FRAME_START`, ends with `FRAME_END`, and holds the image in between |
| Device.FrameMessageInjective | streaming_serverCNN_EIH.py:112 | distinct images give distinct frame messages |
| Device.UnwrapFrame | streaming_serverCNN_EIH.py:112 | unwrapping succeeds exactly on messages of at least 20 bytes carrying both markers |
| Device.UnwrapWrapFrame | streaming_serverCNN_EIH.py:112 | dropping the first 11 and last 9 bytes of a frame message gives back the image |
| Device.WrapUnwrapFrame | streaming_serverCNN_EIH.py:112 | every message that unwraps is the frame message of what it unwraps to |
| Device.PredictionPrefixSpelling | streaming_serverCNN_EIH.py:113 | the prefix bytes are the encoding of `PREDICTION: ` |
| Device.PredictionMessage | streaming_serverCNN_EIH.py:113 | the line is 13 bytes longer than the label's encoding, starts with `PREDICTION: ` and ends with a line feed |
| Device.PredictionMessageEncodesLine | streaming_serverCNN_EIH.py:113 | the bytes sent are the UTF-8 encoding of the formatted line |
| Device.PredictionMessageRoundTrip | streaming_serverCNN_EIH.py:113 | cutting the 12-byte prefix and the final line feed gives back the label's encoding |
| Device.PredictionMessageOneNewline | streaming_serverCNN_EIH.py:113 | the line ends in a line feed, and that is its only line feed if and only if the label has no newline |
| Device.Utf8LineFeedFree | streaming_serverCNN_EIH.py:113 | a string's encoding holds byte 0x0A if and only if the string holds a newline |
| Bytes.Utf8Char | streaming_serverCNN_EIH.py:113 | one character encodes to 1 to 4 bytes; to one byte, its code, exactly when it is ASCII; otherwise to bytes of 0x80 and above only |
| Bytes.Utf8 | streaming_serverCNN_EIH.py:113 | `str.encode()`: a string of n characters encodes to between n and 4n bytes |
| Bytes.Utf8Append | streaming_serverCNN_EIH.py:113 | encoding distributes over concatenation |
| Bytes.AsciiUtf8 | streaming_serverCNN_EIH.py:113 | an ASCII string encodes to one byte per character, each its code |
| Stream.MarkersHaveNoMagic | streaming_serverCNN_EIH.py:112-113 | neither marker nor the prediction prefix holds `BM` |
| Stream.PredictionMessageNoMagic | streaming_serverCNN_EIH.py:113 | a prediction line holds no `BM` when its label's encoding holds no `BM` |
| Stream.ClassLabelsHaveNoMagic | streaming_serverCNN_EIH.py:35 | none of the three labels encodes to bytes holding `BM` |
| Stream.ViewerRecoversImage | streaming_serverCNN_EIH.py:112 | after any buffered bytes with no `BM`, a step that completes a frame message emits exactly the image, skips up to and including `FRAME_START`, and keeps `FRAME_END` |
| Stream.ViewerRecoversFirstFrame | streaming_serverCNN_EIH.py:112 | the first frame message, on an empty buffer, yields exactly the image |
| Stream.ViewerRecoversFrameAfterPrediction | streaming_serverCNN_EIH.py:112-113 | a prediction line followed by a frame message, in one chunk on an empty buffer, yields exactly the image |
| Stream.StepWaitsOnText | streaming_client_cnn.py:30-32 | with no `BM` anywhere, the chunk is only appended |
| Stream.ViewerBuffersPrediction | streaming_serverCNN_EIH.py:113 | the prediction line after a frame is only buffered, behind `FRAME_END` |
| Stream.DeviceChunks | streaming_serverCNN_EIH.py:112-113 | per captured frame, two chunks in the order of the two `sendall` calls: twice as many chunks as frames |
| Stream.DeviceChunksAt | streaming_serverCNN_EIH.py:112-113 | chunk 2i is frame i's message and chunk 2i+1 is its prediction line |
| Stream.RunOneFrame | streaming_serverCNN_EIH.py:112-113 | the loop over one frame's two messages emits that image and leaves `FRAME_END` and the line buffered |
| Stream.ViewerRecoversStream | streaming_serverCNN_EIH.py:112-113 | fed the device's messages one per chunk, the loop never stops early, consumes every chunk, emits exactly the device's images in order, and ends holding the last `FRAME_END` and prediction line |
| Stream.ViewerRecoversDeviceStream | streaming_serverCNN_EIH.py:112-113 | for well-formed images and the device's own labels, the viewer connected from the start emits exactly the images sent, in order; the 4096-byte bound in `DeviceSendable` is not used by the proof and only makes the one-write-per-`recv` assumption plausible |

## Left out

- Sockets: connecting, `accept`, `recv`, `sendall` and `close`. Only the
  byte sequences passed to and from them are modelled; received chunks are
  a parameter of `Viewer.RunLoop`.
- Wi-Fi association, camera set-up and capture: hardware. Images are
  parameters.
- `resize_96x96_to_32x32_averaged_and_threshold` and `strip_bmp_header`:
  they come from a module that is not part of this model.
- Loading the CNN and `model.run`: a native library. Its scores are a
  parameter.
- Device.GetMaxIndex: scores are integers, not 32-bit floats, so NaN and
  float rounding are not modelled.
- OpenCV decoding, resizing and display, and the `q` key: the viewer's
  loop ends in the model only on an empty chunk. A decode that returns no
  image (streaming_client_cnn.py:51-53) happens after the buffer is
  trimmed, so it would not change the model's buffer; a decode that raises
  is the next point.
- Logging, `print` and `gc.collect`: they do not affect the bytes.
- The exception handlers that end either loop (streaming_client_cnn.py:63-65
  on the viewer): the model has no exceptions. In the real viewer an empty
  frame, cut for a declared size of 0, reaches OpenCV's `imdecode`, which
  raises on an empty buffer, and the handler ends the loop; `Viewer.RunLoop`
  goes on instead. This rests on OpenCV's behaviour, which is not part of
  this model.
- Stream.ViewerRecoversStream: assumes that every `sendall` arrives as
  exactly one `recv` chunk. TCP may split or merge writes. Other chunkings
  are covered only step by step, by `Viewer.Step`'s contract and
  `Stream.ViewerRecoversFrameAfterPrediction`.
- Viewer.RunLoop: the 4096-byte `recv` limit bounds nothing in the loop
  itself. It appears only in `Stream.DeviceSendable`, the condition under
  which one write can arrive as one chunk.
- Bytes.Utf8: encodes any Unicode scalar value, but only ASCII strings have
  their bytes spelled out (`Bytes.AsciiUtf8`). The labels and markers are
  ASCII.
