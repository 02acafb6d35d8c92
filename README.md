# rive-android: decoded-image conversion and worker-thread queue

This project models two pieces of the native (C++) layer of the rive Android
runtime and proves properties of them in Dafny.

- **`JNIDecodeImage`** (module `AndroidFactories`, `android_factories.dfy`).
  The platform image decoder returns an `int[]` laid out as
  `[width, height, ARGB pixel 0, ARGB pixel 1, ...]`. The native code checks
  the array. It then unpacks every ARGB word into four RGBA bytes and,
  on request, premultiplies the colour channels by alpha with the rounding
  division `div255(v) = (v + 128) * 257 >> 16`. It also reports whether every
  pixel is opaque. The pure part is a set of specification functions (`Div255`,
  `Premultiply`, `PixelRgba`, `RgbaBytes`, `CheckHeader`, `Decode`). The loop is
  the method `ConvertPixels`, which writes into an array through an advancing
  byte offset. `JNIDecodeImage` writes the caller's out-parameters, modelled as
  the fields of a `DecodeOutputs` object. Both methods are proved against the
  functions.
- **`WorkerThread`** (module `WorkerThreads`, `worker_thread.dfy`). This is a
  FIFO queue of work items that ends with a null termination token. It keeps two
  counters, the last pushed work ID and the last completed work ID, plus a
  terminated flag. The class `WorkerThread` has the queue as a `seq` field and
  methods `Run`, `Terminate`, `WorkerStep` (one pass through the worker's loop
  body), `WaitUntilComplete`, `RunAndWait`, `Join` and `TerminateThread`. The
  blocking wait becomes the predicate `IsComplete(id)`. The ghost histories
  `pushed` and `completed` let the invariant `Valid()` state the FIFO property:
  pushed = completed + the callables still queued.

Words of the decoder's array are integers in [0, 2^32): the native code reads
each Java `int` as a `uint32_t`. The shifts and masks `(p >> k) & 0xFF` are
written as division and remainder by powers of two.

## Model

| member | source | states |
|---|---|---|
| `AndroidFactories.Alpha` | kotlin/src/main/cpp/src/helpers/android_factories.cpp:102 | `(p >> 24) & 0xFF`: the byte c with c * 2^24 <= p < (c + 1) * 2^24 |
| `AndroidFactories.Red` | kotlin/src/main/cpp/src/helpers/android_factories.cpp:103 | `(p >> 16) & 0xFF`: the byte c with c * 2^16 <= p mod 2^24 < (c + 1) * 2^16 |
| `AndroidFactories.Green` | kotlin/src/main/cpp/src/helpers/android_factories.cpp:104 | `(p >> 8) & 0xFF`: the byte c with c * 2^8 <= p mod 2^16 < (c + 1) * 2^8 |
| `AndroidFactories.Blue` | kotlin/src/main/cpp/src/helpers/android_factories.cpp:105 | `p & 0xFF`: the byte c such that p - c is a multiple of 2^8 |
| `AndroidFactories.PackArgb` | kotlin/src/main/cpp/src/helpers/android_factories.cpp:101-105 | packing four channel bytes gives a word whose alpha, red, green and blue extractions are exactly those bytes (the inverse of the unpacking) |
| `AndroidFactories.UnpackPack` | kotlin/src/main/cpp/src/helpers/android_factories.cpp:101-105 | every 32-bit word is the packing of its own four channels, so the unpacking loses no bits |
| `AndroidFactories.RoundingDivision` | kotlin/src/main/cpp/src/helpers/android_factories.cpp:96 | for v <= 255*255, (v + 128) * 257 >> 16 lies within 127 of v / 255 in units of 255, i.e. it is v / 255 rounded to nearest |
| `AndroidFactories.Div255` | kotlin/src/main/cpp/src/helpers/android_factories.cpp:96 | `div255` of a product of two bytes is v / 255 rounded to nearest: 255 r - 127 <= v <= 255 r + 127 |
| `AndroidFactories.Premultiply` | kotlin/src/main/cpp/src/helpers/android_factories.cpp:109-113 | `div255(c * a)` is a byte at most a and at most c; it is 0 when a = 0 and c when a = 255 |
| `AndroidFactories.Channel` | kotlin/src/main/cpp/src/helpers/android_factories.cpp:107-114 | a colour channel is copied unchanged when alpha is 255 or premultiply is off; with premultiply on it never exceeds alpha |
| `AndroidFactories.PixelRgba` | kotlin/src/main/cpp/src/helpers/android_factories.cpp:101-121 | one ARGB word becomes four bytes: r, g, b from bits 16-23, 8-15, 0-7 (premultiplied only when alpha != 255 and premultiply), and alpha from bits 24-31 unchanged |
| `AndroidFactories.RgbaBytes` | kotlin/src/main/cpp/src/helpers/android_factories.cpp:94-122 | the output buffer of n pixel words has 4n bytes |
| `AndroidFactories.AllOpaque` | kotlin/src/main/cpp/src/helpers/android_factories.cpp:98-123 | the flag that starts true and is cleared by each pixel with alpha != 255 is true iff every pixel's alpha is 255 |
| `AndroidFactories.RgbaBytesAt` | kotlin/src/main/cpp/src/helpers/android_factories.cpp:117-121 | bytes 4i .. 4i+3 of the buffer are exactly the four bytes of pixel i |
| `AndroidFactories.RgbaByteAt` | kotlin/src/main/cpp/src/helpers/android_factories.cpp:117-121 | byte 4i + j of the buffer is byte j of pixel i |
| `AndroidFactories.PremultipliedIsValid` | kotlin/src/main/cpp/src/helpers/android_factories.cpp:107-121 | in a premultiplied buffer every colour byte is at most its pixel's alpha byte |
| `AndroidFactories.OpaqueIgnoresPremultiply` | kotlin/src/main/cpp/src/helpers/android_factories.cpp:107-114 | when every pixel is opaque, premultiplying changes no byte |
| `AndroidFactories.RepackArgb` | kotlin/src/main/cpp/src/helpers/android_factories.cpp:117-121 | reading an RGBA buffer back gives one word per four bytes |
| `AndroidFactories.StraightRoundTrip` | kotlin/src/main/cpp/src/helpers/android_factories.cpp:101-121 | without premultiplication, repacking the output bytes gives back the input words exactly |
| `AndroidFactories.PixelCount` | kotlin/src/main/cpp/src/helpers/android_factories.cpp:76-78 | width * height is 0 iff a dimension is 0, and 2 + width * height stays below 2^64, so the 64-bit `size_t` arithmetic cannot wrap |
| `AndroidFactories.CheckHeaderAsWritten` | kotlin/src/main/cpp/src/helpers/android_factories.cpp:67-90 | the three guards as written: the array is accepted iff it has >= 2 elements, width * height > 0 and length <= 2 + width * height; an accepted header is (raw[0], raw[1], their product) |
| `AndroidFactories.CheckHeader` | kotlin/src/main/cpp/src/helpers/android_factories.cpp:67-90 | the guards as intended: fewer than 2 elements is BadArrayLength, a zero dimension is EmptyImage, and acceptance holds iff length >= 2 + width * height, so every pixel read is in bounds |
| `AndroidFactories.AsWrittenAcceptsMissingPixel` | kotlin/src/main/cpp/src/helpers/android_factories.cpp:85-101 | the as-written guard accepts [1, 1], whose only pixel word raw[2] does not exist |
| `AndroidFactories.AsWrittenRejectsCompleteArray` | kotlin/src/main/cpp/src/helpers/android_factories.cpp:85-90 | the as-written guard rejects [1, 1, p, q] as "not enough elements" although it holds the needed word; the intended check accepts it |
| `AndroidFactories.AsWrittenSafeIffExact` | kotlin/src/main/cpp/src/helpers/android_factories.cpp:85-101 | the arrays the as-written guard accepts and the loop reads in bounds are exactly those of length 2 + width * height, and on them the two checks agree |
| `AndroidFactories.PixelWords` | kotlin/src/main/cpp/src/helpers/android_factories.cpp:99-101 | the loop reads exactly pixelCount words, raw[2 .. 2 + pixelCount] |
| `AndroidFactories.Decode` | kotlin/src/main/cpp/src/helpers/android_factories.cpp:67-123 | the whole conversion (corrected guard): it succeeds iff the array holds >= 2 + width * height words with a non-zero pixel count; on success the buffer has 4 * width * height bytes; it never reads past the end |
| `AndroidFactories.DecodeFailures` | kotlin/src/main/cpp/src/helpers/android_factories.cpp:67-90 | decoding fails with BadArrayLength below 2 elements, EmptyImage on a zero dimension, NotEnoughElements on a short array, and succeeds exactly otherwise |
| `AndroidFactories.DecodeShape` | kotlin/src/main/cpp/src/helpers/android_factories.cpp:76-78 | on success width = raw[0], height = raw[1], and the buffer holds 4 * width * height bytes |
| `AndroidFactories.DecodedPixel` | kotlin/src/main/cpp/src/helpers/android_factories.cpp:99-122 | on success bytes 4i .. 4i+3 are the converted r, g, b, a of word raw[2 + i] |
| `AndroidFactories.DecodedOpacity` | kotlin/src/main/cpp/src/helpers/android_factories.cpp:98-123 | on success the opacity flag is true iff every pixel word has alpha 255 |
| `AndroidFactories.DecodeAsWritten` | kotlin/src/main/cpp/src/helpers/android_factories.cpp:67-122 | with the guard as written, decoding succeeds iff the length is exactly 2 + width * height; accepted but shorter arrays are reported as ReadsPastEnd; longer arrays fail with NotEnoughElements |
| `AndroidFactories.AsWrittenAgreesWhenSafe` | kotlin/src/main/cpp/src/helpers/android_factories.cpp:85-90 | where the as-written conversion succeeds the corrected one gives the same image; a ReadsPastEnd array is NotEnoughElements for the corrected one; an as-written NotEnoughElements array is accepted by the corrected one |
| `AndroidFactories.ConvertPixels` | kotlin/src/main/cpp/src/helpers/android_factories.cpp:94-123 | the loop writes into a fresh 4 * pixelCount byte buffer exactly RgbaBytes of the pixel words, and clears the opacity flag exactly when some pixel has alpha != 255 |
| `AndroidFactories.Extend` | kotlin/src/main/cpp/src/helpers/android_factories.cpp:99-122 | one more loop iteration appends that pixel's four bytes and ands its opacity into the flag |
| `AndroidFactories.StorePixel` | kotlin/src/main/cpp/src/helpers/android_factories.cpp:117-121 | writes r, g, b, a at offsets bytes .. bytes + 3; every byte before and after those four is unchanged |
| `AndroidFactories.DecodeOutputs.constructor` | kotlin/src/main/cpp/src/helpers/android_factories.cpp:25-28 | the caller's out-parameters, before the call |
| `AndroidFactories.JNIDecodeImage` | kotlin/src/main/cpp/src/helpers/android_factories.cpp:23-127 | returns true iff the decode succeeds; on failure width, height, pixels and isOpaque are untouched; on success they are the decoded image's |
| `WorkerThreads.Jobs` | kotlin/src/main/cpp/include/helpers/worker_thread.hpp:181 | the callables of a queue, in order, are never more than its items |
| `WorkerThreads.JobsAppend` | kotlin/src/main/cpp/include/helpers/worker_thread.hpp:73 | pushing at the back of the queue appends its callable (if not the token) at the back of the jobs |
| `WorkerThreads.JobsOfCallables` | kotlin/src/main/cpp/include/helpers/worker_thread.hpp:152-160 | a queue without the token has one job per item |
| `WorkerThreads.FrontIsJob` | kotlin/src/main/cpp/include/helpers/worker_thread.hpp:152-160 | when the token can only be last and a job is still queued, the front item is a job |
| `WorkerThreads.WorkerThread.IsComplete` | kotlin/src/main/cpp/include/helpers/worker_thread.hpp:82-90 | the condition `waitUntilComplete` waits for, lastCompleted >= id; kWorkIDAlwaysFinished satisfies it in every state |
| `WorkerThreads.WorkerThread.Outstanding` | kotlin/src/main/cpp/include/helpers/worker_thread.hpp:74-91 | lastCompleted <= lastPushed, their difference is the number of callables still queued, and kWorkIDAlwaysFinished is always complete |
| `WorkerThreads.WorkerThread.constructor` | kotlin/src/main/cpp/include/helpers/worker_thread.hpp:177-181 | a new worker has an empty queue, both counters at kWorkIDAlwaysFinished (0) and is not terminated |
| `WorkerThreads.WorkerThread.Run` | kotlin/src/main/cpp/include/helpers/worker_thread.hpp:65-78 | needs a non-null callable and a live worker; appends it at the back, nothing else in the queue changes, and returns the old last pushed ID + 1, which is never 0 and not yet complete |
| `WorkerThreads.WorkerThread.Terminate` | kotlin/src/main/cpp/include/helpers/worker_thread.hpp:95-106 | the first call appends the null token and sets the terminated flag; later calls change nothing |
| `WorkerThreads.WorkerThread.WorkerStep` | kotlin/src/main/cpp/include/helpers/worker_thread.hpp:146-168 | pops the queue front (FIFO); a callable raises lastCompleted by exactly one, the token ends the loop with lastCompleted = lastPushed; an empty queue changes nothing |
| `WorkerThreads.WorkerThread.WaitUntilComplete` | kotlin/src/main/cpp/include/helpers/worker_thread.hpp:80-91 | returns with lastCompleted >= id (at once if it already held); what has run is a prefix of the pushed callables in FIFO order and the queue holds the rest; the terminated and exited states are unchanged. In the model's schedule only the worker steps, so it stops with exactly id completed |
| `WorkerThreads.WorkerThread.RunAndWait` | kotlin/src/main/cpp/include/helpers/worker_thread.hpp:93 | after running and waiting, every pushed callable has run, the queue is empty and the returned ID is complete |
| `WorkerThreads.WorkerThread.Join` | kotlin/src/main/cpp/include/helpers/worker_thread.hpp:122-123 | once the token is queued the worker runs every remaining job and leaves the loop, with lastCompleted = lastPushed |
| `WorkerThreads.WorkerThread.TerminateThread` | kotlin/src/main/cpp/include/helpers/worker_thread.hpp:95-126 | idempotent termination; the call that sends the token returns only after the worker has exited with lastCompleted = lastPushed |

## Findings

| source | as written | input that shows it | evidently intended | confidence | as-written member | corrected member |
|---|---|---|---|---|---|---|
| kotlin/src/main/cpp/src/helpers/android_factories.cpp:85 | the "not enough elements" guard fails when the array is longer than 2 + pixelCount | `[1, 1]` passes every guard, and the loop then reads `rawPixels[2]` past the end; `[1, 1, p, q]` is rejected although it holds the one pixel needed | fail when the array is shorter than 2 + pixelCount | high; not executed | `AndroidFactories.CheckHeaderAsWritten` (with `AsWrittenAcceptsMissingPixel`, `AsWrittenRejectsCompleteArray`, `DecodeAsWritten`) | `AndroidFactories.CheckHeader` (with `DecodeFailures`, used by `Decode` and `JNIDecodeImage`) |

## Left out

- The JNI calls of `JNIDecodeImage` are not modelled: finding the `Decoder` class and its static method, allocating and filling the byte array, the Kotlin decode call, getting and releasing the int array, and deleting local references. The model starts from the `int[]` the decoder returns. The early failures of those calls (lines 32-54) are not modelled.
- `AndroidFactories.JNIDecodeImage` uses the corrected guard; the as-written guard is modelled by `DecodeAsWritten`, which reports the out-of-bounds read as a separate error instead of giving it a meaning.
- `AndroidFactories.PixelCount`: `size_t` is taken to be 64 bits, where `width * height` and `2 + pixelCount` provably cannot wrap. On a 32-bit target they could, and that case is not modelled.
- The shifts and masks on `uint32_t` are stated as division and remainder by powers of two. No bit-vector equivalence is proved.
- The rest of `android_factories.cpp` is not modelled: the `decode` template, `AndroidPLSRenderBuffer`, `AndroidImage` and the canvas factory. They are GL-thread marshalling, reference-counted lifetimes and floating-point gradients over classes that are not part of this model.
- `WorkerThreads.WorkID`: the 64-bit counters are unbounded naturals; wrap-around after 2^64 pushes is not modelled.
- The thread itself is not modelled: `std::thread`, the mutex and both condition variables, `setAffinity`, `pthread_setname_np`, attaching to and detaching from the JVM, and `MakeThreadState`. The worker's loop body is one atomic step (`WorkerStep`), and a blocked wait is a state in which the awaited condition does not hold yet.
- `WorkerThreads.WorkerThread.TerminateThread` models only the join branch. The detach branch, taken when the worker thread terminates itself (lines 113-118), is not modelled.
- `WorkerThreads.WorkerThread.WaitUntilComplete`: `lastCompletedWorkID == workID` on return holds only for the model's schedule, where the waiting caller drives the worker and nothing else runs. The source promises only `lastCompletedWorkID >= workID`, because the real worker may already have run further.
- `WorkerThreads.WorkerThread.WaitUntilComplete` requires an ID that `Run` has already handed out; for a later ID the source would block until more work is pushed, which the model does not express.
- The work callables are opaque values. What they do to the thread state is not part of this model.
- The destructor, which calls `terminateThread`, and the accessors `threadID`, `threadState` and `rendererType` hold no bookkeeping and are not modelled.
- The renderer lifecycle and frame scheduling (attach, start, stop, delete) are not part of this model: none of the modelled source files contain them.
- `bindings_data_binding.cpp`, `bindings_file_asset_loader.cpp`, `jni_resource.cpp`, `bindings_font_test.cpp` and `font_helper.hpp` are not part of this model. They are thin pass-throughs into runtime classes that are not part of this model.
