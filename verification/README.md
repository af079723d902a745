# snapraid stream layer, modelled in Dafny

This project models the buffered stream layer in snapraid's `util.c`. A
`STREAM` is a fixed 64 KiB buffer (STREAM_SIZE) over one file for reading,
or over one or more files for writing. Writing to several files is how
snapraid keeps copies of its content file in several places.

The model covers:
- the read-side parsers: tokens, lines, the last token of a line, 32/64-bit
  decimal numbers and hex blocks;
- the write-side formatters: raw bytes, C strings, decimal numbers and hex
  blocks;
- the engine beneath both:
  - `sfill`: one `read` into the buffer;
  - `sflush`: fan-out to every handle, stopping at the first short write;
  - `ssync` and `sclose`;
  - the open functions;
- the bounded path helpers `pathcpy`, `pathcat` and `pathslash`.

Each parser and formatter that has a fast path has it modelled beside its
slow path. The fast path works straight on the buffer when `sptrlookup`
reports enough resident bytes. The slow path makes one `sgetc`/`sputc` call
per byte. The model relates the two paths to each other and to a
reference definition.

Modules:
- `Base`: bytes, `Option`, the stream states, ASCII codes, `strlen` and C
  strings.
- `TextCodec`: the hex tables (`strhexset`, `strdecset`), hex encoding and
  decoding, the digit loops of `sputu32`/`sputu64`, canonical decimal
  text, and the reference scanner `Scan` that tokens and lines are
  specified by.
- `ReadStreams`: a read stream and its source file; `sfill`, `sgetc`,
  `sungetc`, `sptrlookup`; `Delivered`, the bytes that successive `sgetc`
  calls return before EOF.
- `Readers`: `sgettok`, `sgetline` (both paths), `sgetlasttok`, `sgetu32`,
  `sgetu64`, `sgethex` (both paths).
- `WriteStreams`: a write stream and its files; `sflush`, `sputc`,
  `ssync`, `sclose`, `sopen_multi_write`, `sopen_multi_file`,
  `sopen_write`.
- `Writers`: `swrite`, `sputs`, `sputhex` (both paths), `sputu32`,
  `sputu64`.
- `Paths`: `pathcpy`, `pathcat`, `pathslash`.
- `RoundTrip`: what the writers produce, the readers read back.

Operating-system calls are modelled as data stored in the stream. These
are oracles whose answers the caller chooses:
- `read` results come from a list of replies, each a byte limit or a
  fault. When the list is exhausted, a read delivers a full chunk.
- `write` results work the same way for each file.
- `fsync` and `close` outcomes are one flag per file.
- Whether `open` succeeds is a parameter.

A file's content, as the writer sees it, is what reached the file plus
what is still in the buffer (`Written`).

## Model

| member | source | states |
|---|---|---|
| TextCodec.DecSetInvertsHexSet | util.c:25-45 | every nibble's `strhexset` character is a lowercase hex digit that `strdecset` maps back to the nibble |
| TextCodec.DecodePairSpec | util.c:27-45 | `(strdecset[c0] << 4) \| strdecset[c1]` stays within a byte exactly when both characters are hex digits (upper or lower case), and then it is the byte they denote |
| TextCodec.OrPair | util.c:394-402 | OR-ing a pair into the running `x` keeps `x <= 0xFF` exactly when `x` was a byte and both characters are hex digits; this is why the single test after the loop catches any bad digit |
| TextCodec.HexRoundTrip | util.c:517-553 | the text `sputhex` produces is all hex digits, and decoding it gives back the bytes |
| TextCodec.HexEncodeDecode | util.c:375-435 | lowercase hex text decoded and encoded again is the same text |
| TextCodec.HexEncodeLowercase | util.c:25 | `sputhex` only emits the characters 0-9 and a-f |
| TextCodec.DigitLoopCanonical | util.c:473-489 | the `sputu32` digit loop yields canonical decimal text of the value: digits only, no leading zero, denoting the value |
| TextCodec.DecimalTextCanonical | util.c:473-489 | `sputu32` text, with "0" for zero, is canonical decimal text of the value |
| TextCodec.CanonicalDecimalUnique | util.c:473-489 | there is only one canonical decimal text per value, so any canonical text is the writer's |
| TextCodec.DigitLoop64Agrees | util.c:491-515 | `sputu64`'s two-stage loop (64-bit division above 2^32, then 32-bit) gives the same digits as one plain loop |
| TextCodec.DecimalBuffersSuffice | util.c:473-515 | fewer than 16 digits are written for a 32-bit value and fewer than 32 for a 64-bit one, so `buf[--i]` never underflows |
| TextCodec.ScanShape | util.c:216-248 | a scanned field is shorter than `size` and holds no stop byte; it is the input up to the stop byte, or one byte shorter, and then the dropped byte is a CR directly before an LF stop |
| TextCodec.TrimBlanks | util.c:312-316 | the trimmed text is a prefix of the original, does not end with a blank, and only blanks were cut |
| ReadStreams.OpenRead | util.c:50-72 | `sopen_read` fails only when `open` fails; otherwise it gives an empty buffer in read state on the file |
| ReadStreams.Fill | util.c:164-186 | outside read state, EOF with the stream unchanged; a failed read gives the error state, a zero read the EOF state, both leaving the cursor and the data alone; otherwise the buffer is the bytes read and the first is returned |
| ReadStreams.GetcDelivers | util.c:164-186 | each `sgetc` returns the next delivered byte and leaves the rest, or returns EOF exactly when nothing is left, whether the byte was resident or came from a refill |
| ReadStreams.UngetRestores | util.c:228 | `sungetc` of the byte just read puts it back as the next delivered byte |
| ReadStreams.ResidentPrefix | util.c:257-259 | when `sptrlookup(n)` holds, the next `n` delivered bytes are the resident `buf[pos..pos+n]` |
| ReadStreams.OpenDeliversFile | util.c:50-72 | a stream opened on a file whose reads never fail delivers the whole file, however the reads are chunked |
| Readers.ScanSlowSpec | util.c:222-243 | the `sgetc` loop yields exactly the reference scan of the delivered bytes, and consumes exactly up to the stop byte, which it pushes back |
| Readers.GetTok | util.c:216-248 | `sgettok` stops at space, tab, newline or EOF, leaves the stop byte unread, drops one CR before a newline, and fails when `size` bytes would be stored |
| Readers.LineFastMatchesSlow | util.c:256-297 | with `size` bytes resident, the buffer-scanning path of `sgetline` succeeds exactly when the `sgetc` path does, and then returns the same line and leaves the same stream |
| Readers.GetLine | util.c:250-302 | `sgetline` returns the delivered bytes before the first newline (less one CR before it) and leaves the newline unread; it fails when `size` bytes would be stored; on the fast path a failure leaves the stream untouched |
| Readers.GetLastTok | util.c:304-319 | `sgetlasttok` fails exactly when `sgetline` does, consumes the same bytes, and returns the line without trailing blanks: never longer, only blanks removed |
| Readers.FoldIsMod | util.c:332-336 | the accumulate loop `v = v*10 + digit` in arithmetic modulo `m` (2^32 or 2^64) computes the decimal value of the digits modulo `m` |
| Readers.DigitScan | util.c:331-336 | the digit loop consumes exactly the run of digits and folds it into the value |
| Readers.GetU32 | util.c:321-346 | `sgetu32` succeeds exactly when the next byte is a digit; its value is the whole digit run's decimal value mod 2^32, and the byte after the run is the next delivered; on failure the first byte is consumed |
| Readers.GetU64 | util.c:348-373 | the same as `sgetu32`, mod 2^64 |
| Readers.HexFastDecodes | util.c:383-404 | the resident-buffer loop of `sgethex` leaves the OR accumulator within a byte exactly when all `2n` characters are hex digits, and then stores their decoding |
| Readers.GetHexFast | util.c:380-406 | the fast path of `sgethex` succeeds exactly when the `2n` resident characters are hex digits; on success it yields their decoding and advances past them; on failure the cursor does not move |
| Readers.HexSlowLoop | util.c:407-432 | the `sgetc` path of `sgethex` succeeds exactly when at least `2n` bytes are delivered and all of them are hex digits, and then yields their decoding and consumes exactly them; when the `2n` bytes are resident it never refills, and a success leaves the buffer as it was with the cursor `2n` further on |
| Readers.GetHex | util.c:375-435 | `sgethex` returns -1 on any non-hex character and, on the slow path, on EOF; on success the value is the decoding of the next `2n` delivered bytes; both paths meet this one specification |
| Readers.FastDelivered | util.c:380-406 | the buffer path's outcome, restated on the delivered content: success exactly when the next `2n` delivered bytes are hex, their decoding, and the content after them left to read |
| Readers.HexFastMatchesSlow | util.c:375-435 | with `2n` bytes resident, the buffer path of `sgethex` and the `sgetc` path return the same result; on success they leave the same stream, the cursor moved past the `2n` characters with no refill |
| WriteStreams.SinkWrite | util.c:202-204 | a `write` succeeds exactly when the file accepts the whole block; then the block is appended; a short write appends a proper prefix |
| WriteStreams.WriteAll | util.c:201-209 | handles are written in order 0..n-1; the first short write is reported by index, earlier handles got the block, the failing handle holds a proper prefix of what it should have received, and later ones are untouched |
| WriteStreams.Flush | util.c:188-214 | `sflush` fails outside write state; with an empty buffer it succeeds without writing; otherwise it succeeds exactly when every handle takes the whole buffer, and then empties it; a short write on handle `i` sets ERROR with `state_index = i`, keeps the buffer, leaves handle `i` with only a proper prefix of it and leaves later handles unwritten |
| WriteStreams.FlushTwice | util.c:197-199 | flushing again right after a successful flush writes nothing and succeeds |
| WriteStreams.Putc | util.c:188-214 | `sputc` stores the byte when there is room; on a full buffer it flushes first, and fails out of write state when the flush fails |
| WriteStreams.Sync | util.c:555-570 | `ssync` succeeds exactly when every handle syncs; the first failing handle sets ERROR with `state_index` at its index, and nothing else changes |
| WriteStreams.CloseFrom | util.c:149-152 | the close loop visits every handle from `i` on even after a failed close, leaves each of them closed, and reports failure exactly when some close failed |
| WriteStreams.Close | util.c:139-162 | `sclose` flushes only in write state, then closes every handle even after a failed flush or close, so every handle ends closed; it succeeds exactly when the flush, if any, and every close succeed; each file keeps what the flush left it, which after a successful flush is everything written |
| WriteStreams.OpenMultiWrite | util.c:74-93 | `sopen_multi_write` gives an empty write stream with one unopened handle per file |
| WriteStreams.OpenMultiFile | util.c:95-121 | `sopen_multi_file` succeeds exactly when `open` and `posix_fadvise` both do, and then handle `i` is open on an empty file; a failed `open` changes nothing; a failed `posix_fadvise` leaves the file truncated and the handle unopened; no other handle changes |
| WriteStreams.OpenWrite | util.c:123-137 | `sopen_write` gives an empty write stream on one truncated file, or fails when `open` or `posix_fadvise` fails |
| Writers.PutAll | util.c:462-468 | a run of `sputc` calls appends the bytes to every file and stops at the first failure, leaving the stream out of write state |
| Writers.Write | util.c:447-471 | `swrite` appends the block to every file; with room it only appends to the buffer; a stream whose files all accept never fails |
| Writers.WriteFastMatchesSlow | util.c:452-468 | when there is room, the copy into the buffer is exactly what the `sputc` loop would do |
| Writers.Puts | util.c:437-445 | `sputs` appends the characters before the terminating NUL |
| Writers.PutsIsPutAll | util.c:437-445 | `sputs` is the `sputc` loop on the C string's characters |
| Writers.PutHex | util.c:517-553 | `sputhex` appends the lowercase hex text of the block to every file |
| Writers.PutHexFastMatchesSlow | util.c:522-550 | when `2 * size` bytes fit, the buffer copy equals the two-`sputc`-per-byte loop |
| Writers.PutHexSlowIsPutAll | util.c:538-550 | the slow path of `sputhex` is the `sputc` loop over the encoded text |
| Writers.PutU32 | util.c:473-489 | on success `sputu32` appends to every file the canonical decimal text of the value; on failure the stream has left write state |
| Writers.PutU64 | util.c:491-515 | on success `sputu64` appends to every file the canonical decimal text of the value; on failure the stream has left write state |
| Paths.PathCpy | util.c:575-585 | `pathcpy` succeeds exactly when the string and its terminator fit; the result is that string, and the bytes past the terminator are untouched |
| Paths.PathCat | util.c:587-598 | `pathcat` succeeds exactly when both strings and one terminator fit; the result is the concatenation |
| Paths.PathSlashAsWritten | util.c:629-642 | `pathslash` as written fails exactly when a slash is needed and `len + 2 >= size` |
| Paths.PathSlashRefusesFit | util.c:633-636 | a one-character path in a 3-byte array is refused, although "a/" and its terminator fit |
| Paths.PathSlash | util.c:629-642 | the corrected `pathslash` fails exactly when a slash is needed and does not fit with the terminator; otherwise it appends '/' to a path that lacks one and leaves others as they are |
| Paths.PathSlashAgrees | util.c:629-642 | wherever `pathslash` as written succeeds, the corrected version gives the same array |
| Paths.PathSlashIdempotent | util.c:629-642 | a second `pathslash` changes nothing |
| Paths.PathSlashAsWrittenIdempotent | util.c:629-642 | the same for `pathslash` as written |
| RoundTrip.DecimalReadBack32 | util.c:321-346 | canonical decimal text followed by a non-digit or EOF reads back through `sgetu32` as the value, with the non-digit next |
| RoundTrip.DecimalReadBack64 | util.c:348-373 | canonical decimal text of a value below 2^64, followed by a non-digit or EOF, reads back through `sgetu64` as the value, with the non-digit next |
| RoundTrip.PutU32ThenGetU32 | util.c:473-489 | what `sputu32` wrote reads back through `sgetu32` as the value |
| RoundTrip.PutU64ThenGetU64 | util.c:491-515 | what `sputu64` wrote reads back through `sgetu64` as the value |
| RoundTrip.HexReadBack | util.c:375-435 | the hex text of a block reads back through `sgethex` as that block, whatever follows |
| RoundTrip.PutHexThenGetHex | util.c:517-553 | what `sputhex` wrote reads back through `sgethex` as the block |
| RoundTrip.LineReadBack | util.c:250-302 | a line ended by LF or CR+LF reads back through `sgetline` without its ending |

## Left out

- Allocation (`malloc_nofail` and friends), `memhash`, `pathprint`, `pathimport` and `pathcmp`. They are not part of the stream layer.
- The real `open`, `read`, `write`, `fsync` and `close` calls. They are replaced by oracle answers stored in the stream, as described above. File names and handle numbers are not stored.
- util.h is not part of this model. `sgetc`, `sungetc`, `sputc`, `sptrlookup`, `sptrget` and `sptrset` are modelled from how util.c uses them:
  - `sputc` flushes when the buffer is full and then stores the byte;
  - `sptrlookup(n)` tests `end - pos >= n` in either mode;
  - `sungetc(EOF)` changes nothing.
- The buffer capacity is taken as 64 KiB, snapraid's STREAM_SIZE.
- `size` arguments: zero and negative values are not modelled. `Readers.GetTok`, `Readers.GetLine`, `Readers.GetLastTok` and `Readers.ScanSlow` require `size >= 1`; with `size == 0` the C code stores past the caller's buffer. Neither is the `int` overflow of `size * 2` in `sgethex`/`sputhex`.
- `Readers.GetHex`: a failed `sgethex` has already written some bytes into the caller's output buffer. The model returns no data on failure.
- `Readers.GetHex`: a failure on the fast path leaves the cursor unmoved, while the slow path has consumed bytes. The contract states this for the fast case only. For the slow case it states only the content-level outcome.
- `Readers.GetLine`: on failure, the contract states which bytes were consumed only for the fast path, where nothing is consumed. The slow path has consumed `size` bytes by then; `Readers.ScanSlowSpec` states this for the `sgetc` loop on its own.
- `sclose` on a read stream: its state is never WRITE, so it only closes handle 0; the read model carries no close outcome. `WriteStreams.Close` states the same path (no flush outside write state, success exactly when every close succeeds) for a stream with any number of handles.
- Freeing the stream and its buffers in `sclose`, and the `sclose` that `sopen_write` calls after a failed open. A pure model has nothing to free, and the failed open is simply `None`.
- `posix_fadvise` in `sopen_multi_file`: only its outcome is modelled, as a parameter. The access hint itself changes no data.

## Findings

| source | as written | input that shows it | evidently intended | confidence | as-written member | corrected member |
|---|---|---|---|---|---|---|
| util.c:633-636 | `pathslash` exits with "Path too long" when `len + 2 >= size` | `dst` = "a" in a 3-byte array: `len + 2 == 3 == size`, yet "a/" and its NUL take exactly 3 bytes | fail only when `len + 2 > size`, the same bound `pathcpy` and `pathcat` use (`len + 1 > size`) | medium, not executed | Paths.PathSlashAsWritten, Paths.PathSlashRefusesFit | Paths.PathSlash, Paths.PathSlashIdempotent |
