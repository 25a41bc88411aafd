# crypto_plusplus core in Dafny

This project models two parts of a small C++ market-data client for the Binance exchange:

- `CircularBuffer<T, Size>` (`include/circular_buffer.h`) is a fixed-capacity ring buffer. The WebSocket client holds a `CircularBuffer<Binance_AggTrade, 8>`. The order book waits on the readiness flag of a `CircularBuffer<Binance_DiffDepth, 1024>` and peeks at it with `try_read`. The buffer has an array of `Size` slots, where `Size` must be a power of two. A read index and a write index start at 0 and wrap with the mask `Size - 1`. One slot always stays free, so a buffer holds at most `Size - 1` items. The buffer also carries a readiness flag.
- `CryptoSymbol` has the four trading symbols BTC, ETH, LTC and XRP. `to_string` and `from_string` convert between a symbol and its name. The definitions in `include/binance.h` and `src/binance.cpp` are identical, line for line. The Dafny model has one copy, and its rows below cite the header.

Layout:

- `bits.dfy` (module `Bits`) covers machine arithmetic. It models `size_t` as 64-bit unsigned with explicit wrap-around on subtraction. It models bitwise AND on naturals (`BitAnd`) and the compile-time size check. It proves that masking with `Size - 1` is reduction modulo `Size`.
- `circular_buffer.dfy` (module `CircularBuffer`) has two parts:
  - `Slice` is the abstract contents: the circular slice `[read, write)` of the slots. Lemmas show how each index move changes it.
  - The class `CircularBuffer` holds the slot array, the mask, the two indices and the flag. Its methods are proved against `Contents()`.
- `binance.dfy` (module `Binance`) covers the symbol enum and the two conversions. `from_string`'s exception becomes an `Err(InvalidArgument(..))` result.

The buffer is modelled single-threaded. A push or pop is one atomic step, and the memory orderings are dropped. The template parameter `Size` becomes the length of the `const` array `buffer`. The `T &value` parameter of `try_pop` and `try_read` becomes an input `value` (the caller's variable before the call) plus an output `item` (its value afterwards).

## Model

| member | source | states |
|---|---|---|
| `Bits.BitAnd` | include/circular_buffer.h:51 | bitwise `&` of two unsigned values; the result is no larger than either operand |
| `Bits.SizeTSub` | include/circular_buffer.h:126 | `size_t` subtraction wraps modulo 2^64: the result is below 2^64 and adding back the subtrahend gives the minuend modulo 2^64 |
| `Bits.MaskIsMod` | include/circular_buffer.h:32-34 | for a power-of-two Size, `x & (Size - 1)` equals `x mod Size`, so every masked index advance wraps around the buffer |
| `Bits.PowerOfTwoFromBitAnd` | include/circular_buffer.h:15-18 | a positive n with `n & (n - 1) == 0` is a power of two (the reasoning in the comment above the check) |
| `Bits.ValidSizeIsPowerOfTwo` | include/circular_buffer.h:18 | the size check with `Size > 0` added accepts exactly the powers of two that fit in `size_t` (the corrected check; see Findings) |
| `Bits.StaticAssertAdmitsZero` | include/circular_buffer.h:18 | the check as written passes for Size 0, which is not a power of two; the first push then sees next index 1 and not the read index 0, so it goes on to write slot 0 of a zero-length array |
| `Bits.MaskedDistance` | include/circular_buffer.h:121-127 | for indices below Size, `(write - read) & Mask` with `size_t` wrap-around equals `(write - read) mod Size`, whichever index is ahead |
| `CircularBuffer.SliceLength` | include/circular_buffer.h:121-127 | the number of stored items is `(write - read) mod Size`, never more than `Size - 1` |
| `CircularBuffer.DistanceZero` | include/circular_buffer.h:133-137 | for indices below Size, `(write - read) mod Size` is 0 exactly when the indices are equal, so "size is 0" and "read == write" are the same test |
| `CircularBuffer.SliceEmpty` | include/circular_buffer.h:81-86 | the contents are empty exactly when read index == write index |
| `CircularBuffer.SliceFull` | include/circular_buffer.h:54-61 | the next write position equals the read index exactly when `Size - 1` items are stored |
| `CircularBuffer.SlicePush` | include/circular_buffer.h:63-69 | storing v in the write slot and advancing the write index (when not full) makes the contents the old contents followed by v |
| `CircularBuffer.SlicePop` | include/circular_buffer.h:88-94 | on non-empty contents, the slot at the read index is the oldest item, and advancing the read index leaves the old contents minus that first item |
| `CircularBuffer.CircularBuffer.constructor` | include/circular_buffer.h:18-37 | a buffer of Size slots, where the size check holds and Size > 0; both indices start at 0, the mask is `Size - 1`, the readiness flag is false and nothing is stored |
| `CircularBuffer.CircularBuffer.TryPush` | include/circular_buffer.h:45-70 | succeeds exactly when fewer than `Size - 1` items are stored. On success the contents become old contents + [value], the value lands in the old write slot and the write index advances modulo Size. On failure the slots and write index are unchanged. The read index and readiness flag are never touched |
| `CircularBuffer.CircularBuffer.TryPop` | include/circular_buffer.h:77-95 | fails exactly when the buffer is empty; the caller's value is then untouched and nothing changes. Otherwise it returns the oldest item, the contents lose their first element and the read index advances modulo Size. The slots, write index and readiness flag are never touched |
| `CircularBuffer.CircularBuffer.TryRead` | include/circular_buffer.h:101-115 | fails exactly when the buffer is empty, and then hands back the caller's value. Otherwise it returns the oldest item, the one TryPop would remove. It changes no state |
| `CircularBuffer.CircularBuffer.Size` | include/circular_buffer.h:121-127 | `(write - read) & Mask` is the circular distance `(write - read) mod Size`, at most `Size - 1` |
| `CircularBuffer.CircularBuffer.SizeIsContentsLength` | include/circular_buffer.h:121-127 | `size()` equals the number of stored items |
| `CircularBuffer.CircularBuffer.Empty` | include/circular_buffer.h:133-137 | `size() == 0` holds exactly when the read index equals the write index |
| `CircularBuffer.CircularBuffer.MaxSize` | include/circular_buffer.h:143-147 | returns the slot count Size, at least 1. This is not the usable capacity, which TryPush limits to `Size - 1` |
| `CircularBuffer.CircularBuffer.GetIsReady` | include/circular_buffer.h:153-158 | returns the current flag: false from construction onwards, and after a SetIsReady the value last set |
| `CircularBuffer.CircularBuffer.SetIsReady` | include/circular_buffer.h:164-168 | stores the given state in the flag and leaves the indices and slots unchanged |
| `Binance.ToString` | include/binance.h:42-58 | each of the four enumerators maps to one of "BTC", "ETH", "LTC", "XRP", so none of them reaches the "Unknown" fallback |
| `Binance.FromString` | include/binance.h:65-77 | succeeds exactly for the four names, matched exactly and case-sensitively; any other string fails with invalid_argument "Unknown crypto symbol" |
| `Binance.FromStringToString` | include/binance.h:42-77 | `from_string(to_string(s)) == s` for every symbol |
| `Binance.ToStringFromString` | include/binance.h:42-77 | whenever `from_string(str)` succeeds, `to_string` of its result is str |
| `Binance.ToStringInjective` | include/binance.h:42-58 | distinct symbols have distinct names |

## Findings

| source | as written | input that shows it | evidently intended | confidence | as-written member | corrected member |
|---|---|---|---|---|---|---|
| include/circular_buffer.h:18 | `(Size & (Size - 1)) == 0` is meant to admit only powers of two | `Size = 0`: `Size - 1` wraps to 2^64 - 1, the AND is 0 and the check passes; `try_push` computes next index 1, which is not the read index 0, and writes `buffer[0]` of a `std::array<T, 0>` | `Size > 0 && (Size & (Size - 1)) == 0` | medium; not executed | `Bits.StaticAssertAdmitsZero` | `Bits.ValidSizeIsPowerOfTwo` |

The class constructor requires the corrected `ValidSize`, so every buffer in the model has a positive power-of-two slot count.

## Left out

- Atomics and memory ordering in `CircularBuffer`: the relaxed, acquire and release loads and stores exist for single-producer/single-consumer concurrency. The model gives the sequential semantics only, with each operation as one indivisible step.
- The `std::cout` logging in `try_push` and `set_is_ready`: output only.
- `size_t` is taken to be 64 bits wide. Indices stay below Size, which is at most 2^63, so `index + 1` never wraps. Only the subtraction in `size()` wraps, and the model does that explicitly.
- `std::array<T, Size>` default-initialises its slots. The model needs `T` to have a default value (`T(0)`) and does not say what the initial slot values are.
- Binance.ToString: out-of-range values of the enum (such as `static_cast<CryptoSymbol>(4)`) are not modelled, because the datatype has exactly the four enumerators; in C++ such a value takes the `default` branch and returns "Unknown" (include/binance.h:55-56).
- `Binance_AggTrade` (include/binance.h:22-35) is a plain record with floating-point fields and no operations.
- `src/binance.cpp` includes `include/binance.h` and then defines both functions again. In C++ that is a redefinition, a build and linkage concern. The model has one definition.
- The order book (`include/order_book.h`) is not part of this model. Its bid/ask maps and heaps are declared with `double` keys and have no operations. Its only method polls the readiness flag with sleeps, makes an HTTP request and prints. Snapshot reconciliation exists only as a comment.
- The WebSocket client (`include/websocket_client.h`, `src/websocket_client.cpp`), file I/O (`include/file_IO.h`) and `src/main.cpp` are network, file and process plumbing over libraries that are not part of this model.
