# ytar core in Dafny

A model of the streaming reader for POSIX ustar archives in `src/lib.rs`. Archives follow the "ustar Interchange Format" of the pax utility in IEEE Std 1003.1-2017. The reader also accepts a binary size field marked by the byte 0x80, but it reads that field's eight value bytes little-endian (`u64::from_le_bytes`). GNU tar's base-256 size field is big-endian, so the GNU encoding of a size that needs more than one value byte decodes to a different size. For example, 8 GiB written by GNU tar as `80 00 00 00 00 00 00 02 00 00 00 00` decodes as 2·256³ = 32 MiB. The model follows the Rust code. The model has two parts:

- **Header decoding** (`header.dfy`, module `Header`). This part is pure. A header record is a `seq<Byte>` of length 512, and each field is an explicit slice of it: name `[0,100)`, size `[124,136)`, typeflag `156`, magic `[257,263)`, version `[263,265)` and prefix `[345,500)`. The module decodes the type flag, checks the POSIX markers, builds the path from the NUL-padded prefix and name, and decodes the size field, which can be octal text or the `0x80`-marked little-endian binary form. It also computes the number of blocks to skip. Each decoder is proved against an encoder: `OctalField`, `BinaryField`, `PadField`, `MakeHeader` and `ToU8`. `numerals.dfy` models the two library routines the size decoding relies on, `u64::from_str_radix(_, 8)` and `u64::from_le_bytes`, together with their inverses.
- **The streaming reader** (`reader.dfy`, module `Reader`). This part is imperative. `TarReader` is a class. It owns a `ByteSource` and two counters, `nextHeader` (bytes until the next header block) and `dataLeft` (body bytes still readable). `Next` skips what is left of the current entry and reads one header block across partial reads. It then either detects the end of the archive or sets the counters from the header. `Read` serves body reads bounded by `dataLeft`. The byte source is a sequence of remaining bytes. One read returns any number of the next bytes up to the count asked for, and returns none only when asked for none or when the stream is exhausted. The net effect of `Next` does not depend on how the source splits its reads, so it is stated by the function `NextSpec`. The method `Next` is proved to produce exactly that effect. `archive.dfy` (module `Archive`) proves what this means for a well-formed stream of headers, bodies and padding.

The Rust code's `assert!` checks in `next` and `read` (`n <= next_header`, `bytes_read <= data_left`, `bytes_read <= next_header`) are Dafny `assert` statements, so they are proved never to fire with unbounded integers and for a source whose end of stream is permanent (see `## Left out`). The `assert!`/`expect` panics in size decoding are modelled as `Err` results of type `SizeError`. `Next` then reports them as `MalformedSize`, with both counters already reset to 0, which is the state in which the Rust code panics (`Archive.NextMalformed`).

Two behaviours of the code differ from what the format leads one to expect. The model follows the code in both:

- `blocks` is `n / 512 + 1` for every `n > 0`. A body whose length is a positive multiple of 512 therefore gets one block too many. `Header.BlocksMatchesCeil` states exactly when `Blocks` equals the true block count `CeilBlocks`. `Archive.NextAfterAlignedBody` shows the consequence: after such a body, the reader discards the next member's header.
- One would expect `dataLeft <= nextHeader` to hold at all times. With unbounded integers the code keeps it except after a skip that ends early on a truncated stream. That skip lowers `nextHeader` but leaves `dataLeft` alone. The invariant `TarReader.Valid` is therefore `dataLeft <= nextHeader || tar.remaining == []`. In that state the modelled stream is exhausted for good, so a later `Read` delivers nothing and the `assert!` in `read` holds. A real source may deliver more bytes after end of file; see `## Left out`.

## Model

| member | source | states |
|---|---|---|
| `Header.FromU8` | src/lib.rs:47-60 | The type-byte decoding is total. Exactly the bytes outside the ten known codes become `Other`, and `Other` carries the byte. Re-encoding with `ToU8` gives the byte back, except NUL, which re-encodes as '0'. |
| `Header.FromU8OfToU8` | src/lib.rs:61-74 | Decoding the encoding of any named variant, or of `Other` with an unknown byte, gives the variant back. |
| `Header.ToU8` | src/lib.rs:61-74 | Each named variant encodes to one of the known type codes other than NUL. `Other` encodes to its own byte (see `FromU8OfToU8`). |
| `Header.TypeFlagOf` | src/lib.rs:82-84 | The entry type re-encodes to the header's typeflag byte; an old-style NUL flag is a regular file. The type is `Other` exactly when the byte is not a known code. |
| `Header.IsPosix` | src/lib.rs:78-80 | True exactly when bytes 257..262 are "ustar\0" and bytes 263..264 are "00". |
| `Header.Position` | src/lib.rs:142 | Returns the index of the first occurrence of the byte. Returns `None` exactly when the byte is absent. |
| `Header.TrimSlice` | src/lib.rs:141-148 | Returns the prefix of the field before its first NUL, or the whole field when it has none. The result holds no NUL. |
| `Header.TrimPadded` | src/lib.rs:141-148 | Trimming undoes NUL padding of any NUL-free field content. |
| `Header.FullName` | src/lib.rs:86-92 | Joins the prefix field up to its first NUL, a '/', and exactly the name field up to its first NUL. The result holds no NUL. |
| `Header.Path` | src/lib.rs:99-105 | The path is the name field up to its first NUL when the prefix field starts with NUL. Otherwise it is the prefix up to its first NUL, then '/', then the name up to its first NUL. This holds for every header, whatever follows the first NUL. The path never holds a NUL and is at most 256 bytes long. |
| `Header.PathOfMakeHeader` | src/lib.rs:99-105 | For a header built from NUL-free name and prefix, the path is the name alone when the prefix is empty, and otherwise prefix, '/', name. |
| `Header.MakeHeader` | src/lib.rs:11-28 | Places name, size, typeflag, magic, version and prefix at their offsets in the 512-byte record. The result passes `IsPosix`. |
| `Numerals.ParseOctalU64` | src/lib.rs:125-129 | A successful base-8 parse yields a value below 2^64 and below 8^length. The text is then the zero-filled octal rendering of that value, possibly behind a leading '+'. After a '+' the value is below 8^(length-1), so the rendering fixes it. |
| `Numerals.OctalValueOfDigits` | src/lib.rs:125-129 | Rendering n in k octal digits and parsing the digits back gives n, for n < 8^k. |
| `Numerals.OctalDigitsOfValue` | src/lib.rs:125-129 | Re-rendering the value of an octal digit string gives the same string. |
| `Numerals.LeValueOfLeBytes` | src/lib.rs:115-117 | Writing n as k little-endian bytes and reading them back gives n, for n < 256^k. |
| `Numerals.LeBytesOfLeValue` | src/lib.rs:115-117 | Re-encoding the little-endian value of a byte string gives the same bytes. |
| `Numerals.LeValue` | src/lib.rs:115-117 | The little-endian value of k bytes is below 256^k. |
| `Header.SizeOctal` | src/lib.rs:120-130 | Octal decoding succeeds only on a field of eleven octal digits (or '+' and ten digits) followed by a space. The value is then below 8^11, or below 8^10 after a '+', and the field is its rendering, which fixes the value. |
| `Header.SizeBinary` | src/lib.rs:107-118 | Binary decoding succeeds only on 0x80, three zero bytes and eight more bytes. The value fits in a u64 and re-encodes to exactly that field. |
| `Header.Size` | src/lib.rs:132-138 | A decoded size fits in a u64. The field is its octal, '+'-octal or binary encoding; the first byte's high bit selects which. |
| `Header.SizeOfOctalField` | src/lib.rs:120-137 | Every size below 8^11 written as eleven octal digits and a space decodes to itself. |
| `Header.SizeOfSignedOctalField` | src/lib.rs:120-137 | Every size below 8^10 written as '+', ten octal digits and a space decodes to itself, since `from_str_radix` accepts a leading '+'. |
| `Header.SizeOfBinaryField` | src/lib.rs:107-135 | Every u64 written as 0x80 0 0 0 and eight little-endian bytes decodes to itself. |
| `Header.Blocks` | src/lib.rs:219-225 | The number of blocks skipped is the true block count, or at most one more. |
| `Header.CeilBlocks` | src/lib.rs:219-225 | The true number of 512-byte blocks covering n bytes: it covers n and leaves less than one block spare. |
| `Header.BlocksCover` | src/lib.rs:219-225 | `Blocks(0) == 0`. For n > 0 the skipped blocks exceed n and overshoot by at most 512 bytes. |
| `Header.BlocksMatchesCeil` | src/lib.rs:219-225 | `Blocks(n)` equals the true block count exactly when n is 0 or not a multiple of 512. Otherwise it is one more. |
| `Header.BlocksExamples` | src/lib.rs:219-225 | `Blocks(512) == 2` while one block suffices, and `Blocks(511) == Blocks(1) == 1`. |
| `Reader.ByteSource.Read` | src/lib.rs:168 | The underlying read delivers some prefix of the remaining stream into the requested window. It delivers nothing only when asked for nothing or when the stream is exhausted. |
| `Reader.NextSpec` | src/lib.rs:164-204 | The net effect of `next`. A returned header is the 512 bytes right after the skipped ones. Its name does not start with NUL, its size decodes, and the counters become size and `Blocks(size)*512`, so `dataLeft <= nextHeader`. End of archive zeroes both counters. A truncated stream is consumed to its end. |
| `Reader.TarReader.constructor` | src/lib.rs:157-163 | A new reader owns the source and starts with both counters at 0. |
| `Reader.TarReader.Next` | src/lib.rs:164-204 | Returns exactly the result of `NextSpec` on the old counters and stream, and leaves exactly its counters and remaining stream. Preserves `Valid`. On success it restarts the count of served body bytes. |
| `Reader.TarReader.SkipToHeader` | src/lib.rs:165-177 | Asks for `min(nextHeader, 512)` bytes per step and counts down by what arrives. It succeeds exactly when the stream holds `nextHeader` bytes, and then stops at the header boundary. Otherwise it consumes the stream and fails with the shortfall still in `nextHeader`. |
| `Reader.TarReader.FillHeader` | src/lib.rs:180-195 | Accumulates partial reads into one block. It returns min(512, bytes available). With 512 the buffer holds exactly the next 512 stream bytes; with fewer, the stream is exhausted. |
| `Reader.TarReader.Read` | src/lib.rs:207-216 | Delivers at most `min(dataLeft, buf.Length)` bytes: the next bytes of the stream, at the front of the buffer. Both counters drop by the count, `Valid` is preserved, and the body bytes served for an entry never exceed its declared size. |
| `Archive.NextMalformed` | src/lib.rs:196-202 | A header with a non-NUL first name byte whose size field is rejected makes `next` fail with `MalformedSize` and the decoder's reason. Both counters are left at 0 and the header is consumed. This is the state in which the Rust code panics. |
| `Archive.NextReadsEntry` | src/lib.rs:180-203 | At a header boundary, `next` returns the member's header. The body and its padding stay unread, and the counters become the declared size and its block-rounded length. |
| `Archive.NextAfterBody` | src/lib.rs:166-177 | After any number of body bytes have been read from an entry whose size is 0 or not a multiple of 512, the next `next` lands exactly on the following header. |
| `Archive.NextAfterAlignedBody` | src/lib.rs:219-225 | After a body whose size is a positive multiple of 512, the next `next` discards the following 512 bytes and decodes what comes after them. |
| `Archive.ReadsSecondEntry` | src/lib.rs:164-216 | For two consecutive members, after the first header and any part of its body, `next` returns the second header with the second body's counters. The first body may be empty or of any size that is not a positive multiple of 512. Sizes that are positive multiples of 512 are excluded because `Blocks` over-pads them (see `Archive.NextAfterAlignedBody`). |
| `Archive.EndOfArchive` | src/lib.rs:166-199 | A stream ending at a header boundary, or a header whose name starts with NUL, yields `Ok(None)` with both counters at 0. A stream ending inside a header block, or inside bytes still to be skipped, yields `UnexpectedEof`. |
| `Archive.ZeroBlockEndsArchive` | src/lib.rs:196-199 | An all-zero block is an end-of-archive marker. |

## Left out

- Reader.ByteSource.Read and Reader.TarReader.Read: the model treats end of stream as permanent, because once `remaining` is empty it never grows again. `io::Read` does not promise this; a file that is still being appended to can return data after returning 0. Take a truncated skip from `next_header = 512`, `data_left = 100` with 450 bytes left. It leaves `next_header = 62` and `data_left = 100`. If the source then delivers more bytes, `read` can return up to 100 of them, and the `assert!(bytes_read <= self.next_header)` in `read` then panics. The model does not capture that case.
- Errors of the underlying source (the `?` after each `read`) are not modelled. `ByteSource.Read` never fails, so only end-of-stream errors reach the reader.
- Machine widths are not modelled: `u64 as usize` and the product `blocks(size) * 512` use mathematical integers, with no wrap-around. In the Rust code, a binary size of 2^64 − 512 or more (for example the field `80 00 00 00 FF FF FF FF FF FF FF FF`) makes `blocks(size) * 512` reach 2^64, which overflows `usize`. A debug build panics at that multiplication. A release build wraps `next_header` to 0 while `data_left` keeps the size, and the next non-empty `read` then trips the `assert!(bytes_read <= self.next_header)`. The model does not capture either.
- The `zerocopy` derives, `transmute!` and the packed layout are replaced by explicit slicing of a 512-byte sequence.
- Header fields the code never reads (mode, uid, gid, mtime, checksum, linkname, uname, gname, devmajor, devminor, pad) are modelled only as offsets. `MakeHeader` fills them with zeros.
- `Header.SizeOctal`: a field that is not valid UTF-8 and a field that is not an octal number are both reported as `NotOctal`. In the Rust code both are panics, with different messages.
- The `Cow` borrowed/owned distinction of `path` is left out (`Path` returns a sequence), as are the derives and the commented-out `path_string`.
- `TarReader.Read` takes the caller's buffer as an `array<Byte>` and fills its front. Error values from the underlying read are not propagated, as above.
