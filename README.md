# tc2-frames thermal frame pipeline, modelled in Dafny

This project models the core of `tc2-frames`, a viewer for frames from a
thermal camera. The camera sends one fixed-size block per frame over TCP.
The receiver drops the 640-byte telemetry header and copies the remaining
38400 bytes into the back slot of a double buffer. To draw, the renderer
does the following:

1. It swaps the two slots and copies the front slot.
2. It decodes the first 160 * 120 big-endian 16-bit samples.
3. It takes the minimum and maximum of the non-zero samples.
4. It maps each sample through a colour gradient.
5. It packs each colour into an opaque `0xAARRGGBB` pixel.

Modules:

- `FrameBuffer` (`frame_buffer.dfy`):
  - The `DoubleBuffer` class holds two 38400-byte arrays and one "poisoned" flag per slot's lock.
  - `Swap` exchanges the two arrays' bytes in place.
  - The value-level view is `Slots`, with `SwapSlots` and `WriteBack`. The lemmas about the buffer are stated on this view.
- `Receiver` (`receiver.dfy`): `StoreBlock` is the step of the receive loop that copies a 39040-byte block into `back`.
- `Samples` (`samples.dfy`):
  - The in-place reinterpretation of the frame as host-order u16 values, followed by `to_be`.
  - The non-zero maximum and minimum, with the fallbacks 65535 and 0.
  - The range clamped to at least 1.
- `ThermalImage` (`thermal_image.dfy`):
  - The wrapped numerator and the pixel packing.
  - The image of a frame.
  - `FillImage`, the nested row/column loops of `img_from_buffer`, which fill the pixel array.
  - `ImgFromBuffer`, which swaps the slots, decodes the front slot and calls `FillImage`.

Modelling choices:

- **Locks.** A Rust `Mutex::lock` fails only when the mutex is poisoned, so each lock is one boolean. Contention only delays a call, and a sequential model cannot observe a delay. A poisoned lock has three effects:
  - `swap` is skipped.
  - The receiver's `lock().unwrap()` panics, so `StoreBlock` returns `false` and stores nothing.
  - `img_from_buffer`'s `lock().unwrap()` panics, so `ImgFromBuffer` returns `None`.
- **Host byte order.** It is the `Endian` parameter. The model proves that decoding gives `256 * b[2i] + b[2i+1]` on both hosts.
- **Gradient.** It is a function parameter, `(numerator, range) -> Rgb`. The source evaluates it at the `f64` quotient of the two.

Sizes and results, as the code has them:

- **Block size.** `SEGMENT_LENGTH` (9760, src/main.rs:23) is declared but never used. The receiver reads 39040-byte blocks (src/main.rs:176) and copies the 38400 bytes after the 640-byte header into the slot.
- **Swap result.** `swap` returns nothing (src/main.rs:37), and neither does `DoubleBuffer.Swap`.

## Model

| member | source | states |
|---|---|---|
| `FrameBuffer.DoubleBuffer.constructor` | src/main.rs:26-29 | The shared buffer starts with two zeroed 38400-byte slots and unpoisoned locks. |
| `FrameBuffer.DoubleBuffer.Swap` | src/main.rs:37-43 | If both locks are obtained, front and back exchange their contents, byte for byte. Otherwise both slots are left unchanged. |
| `FrameBuffer.SwapTwiceRestores` | src/main.rs:37-43 | Two swaps with no write in between restore both slots. |
| `FrameBuffer.SwapSkippedOnPoison` | src/main.rs:38-39 | If either lock cannot be acquired, swap leaves both slots and both lock states unchanged. |
| `FrameBuffer.WriteThenSwap` | src/main.rs:176-182 | A write to back followed by a swap makes front equal to the written bytes, and the old front becomes back. |
| `FrameBuffer.Observed` | src/main.rs:52-57 | A run of write, swap and read steps yields one observed front per write. |
| `FrameBuffer.FrameIntegrity` | src/main.rs:52-57 | With healthy locks, the front read after the i-th write and swap is exactly the i-th written frame. |
| `Receiver.Payload` | src/main.rs:182 | Dropping the 640-byte telemetry header from a 39040-byte block leaves exactly one 38400-byte `Frame`, which is the block's tail. |
| `Receiver.StoreBlock` | src/main.rs:176-182 | If the back lock is healthy, back becomes block bytes 640..39040. If it is poisoned, the receiver stops and nothing is stored. Front never changes. |
| `Receiver.StoredBlockReachesFront` | src/main.rs:182 | After a stored block and a swap, front byte k is block byte 640 + k, and back holds the former front. |
| `Samples.FrameHoldsPixels` | src/main.rs:25 | A 38400-byte `Frame` holds exactly two bytes for each of the 160 * 120 = 19200 pixels. |
| `Samples.NativeU16` | src/main.rs:47 | A host-order read puts the first byte in the low half on a little-endian host, and in the high half on a big-endian host. |
| `Samples.ToBe` | src/main.rs:60 | `to_be` is the identity on a big-endian host, and swaps the low and high bytes on a little-endian one. |
| `Samples.U8AsU16Slice` | src/main.rs:46-48 | The reinterpretation yields `p.len() / 2` values. Value i is the host-order read of bytes 2i and 2i+1. |
| `Samples.NativeThenToBe` | src/main.rs:58-61 | Reading a byte pair in host order and applying `to_be` gives the big-endian value of the pair, on little- and big-endian hosts alike. |
| `Samples.DecodeSamples` | src/main.rs:58-61 | Decoding a frame yields exactly 19200 samples. Sample i is `256 * fb[2i] + fb[2i+1]`, which lies in 0..65535. |
| `Samples.Positive` | src/main.rs:62-63 | The filter keeps exactly the samples greater than zero, each as often as it occurs: the result's multiset is the input's with the zeros removed. |
| `Samples.MaxOf` | src/main.rs:62 | The maximum is absent exactly for an empty input. Otherwise it is an element, and it is at least every element. |
| `Samples.MinOf` | src/main.rs:63 | The minimum is absent exactly for an empty input. Otherwise it is an element, and it is at most every element. |
| `Samples.NormBounds` | src/main.rs:62-63 | `max` and `min` are the largest and smallest non-zero samples. With no non-zero sample they are 65535 and 0. In every case min <= max. |
| `Samples.Range` | src/main.rs:64-65 | When min <= max, `max - min` does not underflow. The result is `max - min`, raised to 1 when the bounds coincide, so it is never zero. |
| `Samples.UniformBounds` | src/main.rs:62-63 | For a frame whose samples are all the same non-zero value, both bounds are that value. |
| `Samples.OneHotBounds` | src/main.rs:62-63 | For samples of 100 with one 1000, the bounds are exactly 100 and 1000. |
| `Samples.RangeOfFrame` | src/main.rs:62-65 | For every frame, min <= max and 1 <= range <= 65535. The range is 65535 for an all-zero frame and 1 when the non-zero samples are all equal. |
| `ThermalImage.Numerator` | src/main.rs:71 | `wrapping_sub` gives `val - min` when `val >= min`, and `val - min + 65536` otherwise. |
| `ThermalImage.Pack` | src/main.rs:72-73 | Every pixel has alpha byte 0xFF, with r, g and b in bytes 2, 1 and 0. Unpacking recovers the gradient's colour. |
| `ThermalImage.FrameImageAt` | src/main.rs:66-73 | Pixel i of a frame's image packs the gradient colour at sample i's wrapped numerator and the frame's range. |
| `ThermalImage.FrameImagePixels` | src/main.rs:66-73 | The image has 19200 opaque pixels. Pixel i is the gradient at sample i's wrapped numerator and the frame's range. The image is the same on both host byte orders. |
| `ThermalImage.EqualSamplesEqualPixels` | src/main.rs:66-71 | Pixels whose samples are equal are equal. |
| `ThermalImage.NumeratorOfSample` | src/main.rs:62-71 | A non-zero sample's numerator is at most the range. A zero sample's numerator wraps to `(65536 - min) mod 65536`. |
| `ThermalImage.UniformFrame` | src/main.rs:62-73 | A frame of one non-zero value yields a uniform image: the gradient at numerator 0 over range 1. |
| `ThermalImage.AllZeroFrame` | src/main.rs:62-73 | An all-zero frame yields a full 19200-pixel image, all the gradient at numerator 0 over range 65535. |
| `ThermalImage.HotSpot` | src/main.rs:58-73 | A frame of samples 100 with one sample 1000 gives that pixel the gradient at 900/900 (t = 1.0). Every other pixel gets the gradient at 0/900. |
| `ThermalImage.FillImage` | src/main.rs:66-75 | The row/column loops write each index `y*160+x` of the 19200-entry pixel array with the pixel of sample `y*160+x`. Afterwards the array is the rendered frame. |
| `ThermalImage.ImgFromBuffer` | src/main.rs:50-81 | The slots are swapped, with the swap skipped on a poisoned lock. With a healthy front lock, the pixel array becomes the image of the new front, and a 160x120 image is returned. With a poisoned front lock the copy panics, so the result is None and the pixel array is untouched. |

## Left out

- mDNS advertisement, the local IP lookup and the startup panics (src/main.rs:136-164). They are calls into foreign libraries, not pipeline logic.
- The TCP listener, `read_exact` and the per-connection loop. The model keeps only the step that stores one complete block. A short read, which ends the loop, is therefore not modelled.
- The spawned thread and the `mpsc` ready notification. These are concurrency and plumbing.
- Real mutex interleavings and lock ordering. Locks are sequential state with a poisoned flag. Nothing in the model poisons a lock: in the source that happens only when some other thread panics while holding the lock.
- `colorous::VIRIDIS.eval_continuous` and the `f64` division. Both are floating-point code. The model therefore does not say how the gradient treats quotients above 1, such as a zero sample's wrapped numerator over the range.
- The unsafe pointer cast itself. It is modelled by its effect: values read in host byte order.
- The window, the `raqote` drawing with its `f32` scale factors, font loading and the render loop with `sleep`. These are UI and floating-point code.
- `SEGMENT_LENGTH`. It is declared but never used.
