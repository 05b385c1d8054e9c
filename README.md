# `.splice` drum-machine decoder, modelled in Dafny

The repository decodes `.splice` drum-machine files. A file holds a header region, a version string, a tempo and a run of track records. Each record has an id, a name and 16 step bytes. The decoded pattern is printed one line per track, and each track's steps are drawn as `|x---|x---|…|`.

This project models that core (`drum.go`) and proves what it does.

- **`Bytes`** (`bytes.dfy`): the file is an immutable byte sequence and the read cursor is a natural number.
  - `ReadAt` is what `readAndSeek` leaves in its buffer: the file's bytes that lie in the requested range, then zeros. The buffer comes from `make`, and a short read is ignored.
  - `ReadAndSeek` is the imperative helper. It fills a zero-filled array in a loop and moves the cursor `length` bytes forward.
  - `IndexByte` and `Index` are the two searches from Go's `bytes` package that the decoder calls.
  - `Trim` cuts the version field at its first zero byte.
- **`Drum`** (`drum.go`'s `Decode`, in `drum.dfy`):
  - `Decode` is the imperative decoder. It reads the header region, the version and the tempo, then loops over track records while the cursor is before the end of the file. It stops early, without an error, at a record whose three padding bytes are not `0,0,0`.
  - `Decode` is proved equal to the function `Decoded`, which reads the records through the recursive function `TracksFrom`.
- **`Layout`** (`layout.dfy`) characterises what `TracksFrom` reads, without recursion. The tracks are exactly a run of accepted records laid end to end from offset 50, each taking `21 + nameLength` bytes, followed by a position where the loop stops. It also bounds the number of tracks by the file length.
- **`Render`** (`render.dfy`):
  - `BuildPattern` is `buildpattern`'s loop. It is proved equal to the function `Rendered`, whose exact layout is proved: a leading bar, one mark per step, and a bar after every fourth step.
  - `TrackLine` is the per-track line of `Format`: `(<id>) <name>\t<steps>\n`.
- **`Encoding`** (`encode.dfy`) writes a pattern in the layout the decoder reads, as a partner for the decoder. It proves that a well-formed pattern written this way decodes back to itself. This still holds when the file ends with a record whose padding is not `0,0,0`.
- **`Scenarios`** (`scenarios.dfy`): concrete files and step patterns.
  - An empty file is rejected.
  - The signature is accepted anywhere in the 14-byte header region.
  - A corrupted tail is dropped silently.
  - A record cut short by the end of the file is read with zeros.
  - Four beats on the floor render as `|x---|x---|x---|x---|`.

The layout follows the constants at `drum.go:29-34`: a 14-byte header region, a 32-byte version and a 4-byte tempo, so track records start at offset 50. The layout comment at `drum.go:14-27` gives a 13-byte header (signature and padding) followed by 36 bytes of version, padding and tempo. Its header length disagrees with these constants, so the comment is not followed.

Two behaviours follow the code rather than a "truncated record" error one might expect:

- A record that runs past the end of the file is still appended, and its missing bytes read as zero.
- The signature check is "the 14-byte region contains `SPLICE`", not "the file starts with `SPLICE`".

Go's file position is identified with the decoder's cursor. The file is opened fresh, so its position starts at 0. `ReadAt` does not move it, and every `readAndSeek` call in `Decode` passes the current position and moves it `length` forward. So the position re-read by `f.Seek(0, 1)` in the loop header is always the cursor.

## Model

| member | source | states |
|---|---|---|
| Bytes.Zeros | drum.go:135 | the fresh buffer has `n` bytes, all zero |
| Bytes.ReadAt | drum.go:134-136 | the buffer read at an offset has exactly the requested length, whatever the file length |
| Bytes.ReadAtInRange | drum.go:134-136 | the buffer holds the file's bytes that lie in the requested range, followed by zeros for the part past the end of the file |
| Bytes.ReadAndSeek | drum.go:134-139 | returns the cursor moved forward by exactly `length` and a buffer equal to `ReadAt` at the old cursor |
| Bytes.IndexByte | drum.go:126 | -1 exactly when the byte is absent; otherwise an index holding the byte with no earlier occurrence |
| Bytes.IndexFrom | drum.go:41 | -1 exactly when the needle occurs nowhere at or after `start`; otherwise the first occurrence at or after `start` |
| Bytes.Index | drum.go:41 | -1 exactly when the needle occurs nowhere; otherwise the first index where it occurs |
| Bytes.Trim | drum.go:124-130 | the result is a prefix of the input with no zero byte, and it is cut exactly at the first zero when the input has one |
| Bytes.TrimPadded | drum.go:45-47 | a field holding a zero-free string followed by zero padding trims back to that string |
| Bytes.TrimIdempotent | drum.go:124-130 | trimming twice is trimming once |
| Bytes.TrimUnchangedIff | drum.go:124-130 | trim leaves its input unchanged exactly when the input has no zero byte |
| Drum.TempoBits | drum.go:50-53 | the four tempo bytes read little-endian give a 32-bit unsigned value |
| Drum.TempoBitsRoundTrip | drum.go:50-53 | the four tempo bytes are recovered from the value read |
| Drum.LittleEndian32RoundTrip | drum.go:50-53 | a 32-bit value written as four little-endian bytes reads back as itself |
| Drum.RecordRead | drum.go:62-75 | a record's id is its first byte, its name has as many bytes as its name-length byte says and is read byte for byte right after that byte, and its steps are the 16 bytes after the name; every byte past the end of the file reads as zero |
| Drum.RecordEnd | drum.go:60-73 | the next record starts at least 21 bytes after the current one |
| Drum.Decoded | drum.go:36-81 | error exactly when the 14-byte header region has no `SPLICE`. Otherwise: the version has at most 32 bytes and no zero byte, is a prefix of the 32-byte field at offset 14, and is cut at the field's first zero byte. The tempo is the 32-bit little-endian value of bytes 46..49 |
| Drum.Decode | drum.go:36-81 | the loop over records returns exactly `Decoded`, whose tracks are the recursive reference `TracksFrom(data, 50)`, and fails exactly when the header region lacks the signature |
| Layout.TracksFromAreRecords | drum.go:58-76 | what the loop reads is a run of accepted records laid end to end, followed by a position where the loop stops |
| Layout.RecordsAreTracksFrom | drum.go:58-76 | any run of accepted records ending where the loop stops is what the loop reads |
| Layout.TracksFromExactly | drum.go:58-76 | the loop reads `ts` if and only if `ts` is a run of accepted records laid end to end from the cursor. The record `k` starts at the cursor plus `21 + nameLength` for each earlier record, lies inside the file, has padding `0,0,0` and reads as `ts[k]`. After the last one, the cursor is at or past the end of the file, or the padding there is not `0,0,0` |
| Layout.TracksFromBound | drum.go:60 | with `n` tracks read, the last one started before the end of the file, at least `21 * (n - 1)` bytes after the first |
| Layout.DecodedTracks | drum.go:58-80 | a decoded file's tracks are exactly the run of accepted records from offset 50, in file order |
| Layout.DecodedTrackCount | drum.go:29-60 | a decoded file of at most 50 bytes has no tracks, and a longer one has at most ceil((len - 50) / 21) |
| Render.Mark | drum.go:109-114 | a step is drawn `x` exactly when its byte is 1, and `-` otherwise |
| Render.GroupsLength | drum.go:103-122 | the drawn steps take `n + n / 4` bytes |
| Render.RenderedLayout | drum.go:103-122 | the drawing of `n` steps has `1 + n + n / 4` bytes: a bar first, the mark of step `i` at `1 + i + i / 4`, and a bar right after the mark of every step `i` with `i % 4 == 3` |
| Render.BuildPattern | drum.go:103-122 | the loop's output is the reference function `Rendered(pattern)` (a bar, then each group of four marks closed by a bar), with the length, leading bar, marks and bars stated by `RenderedLayout` |
| Render.SixteenStepLayout | drum.go:103-122 | 16 steps draw as 21 bytes with bars exactly at positions 0, 5, 10, 15 and 20, and the mark of each step in order elsewhere |
| Render.Decimal | drum.go:99 | the id is written as one or more decimal digits with no leading zero: the first digit is `0` exactly when the id is 0, and there is a single digit exactly when the id is below 10 |
| Render.DecimalRoundTrip | drum.go:99 | the digits written for a number read back as that number |
| Render.DecimalUnique | drum.go:99 | any digit run without a leading zero (or the single digit `0`) is exactly the decimal form of the number it spells, so the form written is the only canonical one |
| Render.TrackLine | drum.go:99 | a track's line starts with `(` and ends with a newline, and its length is the id's digits plus the name, the steps, one bar per four steps and six fixed bytes |
| Render.TrackLineReadsBack | drum.go:99 | a track's line is `(`, the id's decimal digits without a leading zero (which read back as the id), `) `, the name, a tab, the drawn steps and a newline |
| Encoding.EncodeRecord | drum.go:62-75 | a written record takes `21 + nameLength` bytes |
| Encoding.RecordReadsBack | drum.go:62-75 | a record written at the cursor is accepted, reads back as the track written, and the next record starts right after it |
| Encoding.TracksStop | drum.go:60-68 | the loop reads nothing where the rest of the file is empty or starts with a record whose padding is not `0,0,0` |
| Encoding.TracksReadBack | drum.go:58-76 | records written end to end read back as the tracks written, in order, whether followed by nothing or by a record with bad padding |
| Encoding.SignatureReadsBack | drum.go:39-43 | a written header holds `SPLICE` in its 14-byte header region |
| Encoding.VersionReadsBack | drum.go:45-47 | a written header's version field trims back to the version written |
| Encoding.TempoReadsBack | drum.go:49-53 | a written header's tempo field reads back as the tempo written |
| Encoding.DecodeEncode | drum.go:36-81 | a well-formed pattern written in the decoder's layout decodes back to itself, also when followed by a record whose padding is not `0,0,0` |
| Scenarios.FourOnTheFloorRendered | drum.go:103-122 | the steps `1,0,0,0` four times draw as `\|x---\|x---\|x---\|x---\|` |
| Scenarios.EmptyFileRejected | drum.go:39-43 | an empty file reads a zero header region and is rejected |
| Scenarios.SignatureNotAtStart | drum.go:39-43 | `SPLICE` at offset 8 of the header region is accepted: the check is "contains", not "starts with" |
| Scenarios.CorruptedTail | drum.go:64-68 | a kick track followed by a record with padding `9,9,9` decodes to the kick track alone, without an error |
| Scenarios.RecordPastEnd | drum.go:134-136 | a single id byte after the header decodes to a track with that id, an empty name and 16 zero steps |

## Left out

- `decoder.go` (`DecodeFile`) opens and closes a file by path. It is plain I/O and is not part of this model. The model starts from the file's bytes.
- The tempo's interpretation as a `float32` (`binary.Read`, drum.go:50-53) and its `%v` rendering are left out, because they are floating point. The model keeps the tempo's 32-bit little-endian bit pattern, which determines the float exactly.
- `Format`'s version and tempo lines (drum.go:96-97) and its `fmt.State` plumbing are left out. Only the per-track line is modelled, as `Render.TrackLine`.
- Errors from `Stat`, `Seek` and `ReadAt` are ignored by the source (drum.go:55, 60, 136-137), so the model has none. The file is an in-memory byte sequence with a known length.
- `math.Mod(float64(key), 4)` in `buildpattern` is modelled as the integer `key % 4`. The keys are small non-negative integers, for which the two agree.
- Drum.Decode: the model follows the decoder's loop over an immutable byte sequence. It leaves out the in-place growth of Go's slices and the aliasing of the returned buffers, which nothing in the source relies on.
- Encoding: the source has no encoder. This module exists only as the decoder's proven inverse.
