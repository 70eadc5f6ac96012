# Multipart image extractor of python-socket-server

This project models `SocketServer.process_multipart_data` from main.py of the
socket server. The server stores every request it receives. When a request
carries a `multipart/form-data` body, this routine pulls the image
attachments out of it and writes each one to a file named
`{timestamp}_image{ext}`.

The routine works in five steps, and the model keeps each of them:

1. **Detect.** The request must contain the bytes `multipart/form-data`.
2. **Find the boundary.** The request is split on CRLF. The first line that
   holds both `Content-Type: multipart/form-data` and `boundary=` gives the
   boundary: the piece after `boundary=`, with ASCII whitespace stripped.
   The scan stops at that line even when the value turns out empty.
3. **Split into parts.** The whole request is split on `--` + boundary.
4. **Select and extract.** A part counts only if it contains
   `Content-Type: image/` and a blank line (`\r\n\r\n`). Its payload is
   everything after the first blank line, minus one trailing CRLF. An empty
   payload writes nothing.
5. **Name.** The extension comes from the part's first CRLF-delimited line:
   `.jpg`, `.png`, `.gif` or `.bin`, in that order of precedence.

Two files:

- `bytes.dfy` (module `Bytes`) holds the Python `bytes` operations the
  routine uses: `in`, `find`, `split` with a non-empty separator, `strip`
  and `endswith`. Each one is specified independently of its definition:
  - `Find` by the occurrence predicate `OccursAt`;
  - `Split` by `Join` (the round trip), by the fact that no piece holds
    the separator, and by the fact that every cut falls at the leftmost
    occurrence of the separator in what remains (`SplitCutsLeftmost`). The
    first two alone would not fix the pieces for a separator that overlaps
    itself, such as `--` + a boundary ending in `-`;
  - `Strip` by the predicate `TrimmedAt`.
- `multipart.dfy` (module `Multipart`) holds the extractor itself.
  - The pure specification is `Extract`, built from `FirstBoundary`,
    `Payload`, `Extension`, `PartImage` and `ImagesOf`.
  - The imperative code is modelled by three methods.
    `ProcessMultipartData` is the routine as a whole. `FindBoundary` is its
    `for line in lines ... break` loop. `SaveImages` is its
    `for part in parts` loop.
  - Each method is proved equal to its specification function. The lemmas
    state what the routine promises about those functions.

The file writes become the sequence of `ImageFile(name, data)` values that
`ProcessMultipartData` returns, in write order. Two writes may share a name;
the later one overwrites the earlier file on disk.

main.py has no `Content-Disposition` filter. It has no
`name=` or `filename=` handling, and it never names a file after its upload
filename. It has no text-field classification. It also does not discard
files already written when a later write fails. The model adds none of
these.

Two behaviours of main.py are kept exactly as written:

- **The extension comes from the part's first line.** A part normally
  begins with the CRLF that ends its delimiter line, so that first line is
  empty and the extension is `.bin` (`ExtensionOfPartAfterDelimiter`,
  `ImagePartAfterDelimiter`).
- **Parts come from a plain substring split.** This is not the delimiter
  recognition of section 5.1.1 of RFC 2046. The bytes `--` + boundary inside
  a payload cut the payload, and no part ever contains them
  (`SplitPiecesAreFree`).

## Model

| member | source | states |
|---|---|---|
| `Bytes.Find` | main.py:42 | `part.find(sep)`: -1 exactly when `sep` occurs nowhere; otherwise an index where it occurs, with no occurrence before it |
| `Bytes.Contains` | main.py:25 | `pat in s` holds exactly when `pat` occurs somewhere in `s` |
| `Bytes.EndsWith` | main.py:46 | `s.endswith(suffix)` holds exactly when `s` is some prefix followed by `suffix` |
| `Bytes.Split` | main.py:27 | `s.split(sep)` yields at least one piece, and at least two exactly when `sep` occurs in `s` |
| `Bytes.JoinSplit` | main.py:37 | splitting loses nothing: joining the pieces with the separator gives the request back |
| `Bytes.SplitPiecesAreFree` | main.py:37 | no piece of a split holds the separator, so delimiter bytes inside a payload always cut it (the substring-split simplification) |
| `Bytes.SplitCutsLeftmost` | main.py:27 | every cut is at the first occurrence of the separator in the rest of the input, which with `JoinSplit` and `SplitPiecesAreFree` fixes the pieces Python returns, also for self-overlapping separators |
| `Bytes.SplitSecondPiece` | main.py:32 | `line.split(b'boundary=')[1]` is the segment after the first `boundary=`, up to a second `boundary=` if there is one |
| `Bytes.IsSpace` | main.py:32 | the bytes `strip()` removes are exactly space, `\t`, `\n`, `\v`, `\f` and `\r` (9-13 and 32) |
| `Bytes.Strip` | main.py:32 | `strip()` returns a slice of its input, flanked only by ASCII whitespace, that neither starts nor ends with whitespace |
| `Bytes.StripEmpty` | main.py:32-35 | the stripped boundary is empty exactly when the declared value is all whitespace |
| `Bytes.LeadingSpace` | main.py:32 | the whitespace run `strip()` removes at the front, ending at the first non-whitespace byte |
| `Bytes.TrailingSpaceStart` | main.py:32 | the whitespace run `strip()` removes at the back, starting after the last non-whitespace byte |
| `Multipart.IsBoundaryLine` | main.py:30-31 | a line declares the boundary when it holds both `Content-Type: multipart/form-data` and `boundary=`; such a line always holds the `multipart/form-data` marker of main.py:25 |
| `Multipart.HeaderHoldsMarker` | main.py:25-31 | a line holding `Content-Type: multipart/form-data` holds `multipart/form-data` |
| `Multipart.BoundaryValue` | main.py:32 | the declared value neither starts nor ends with whitespace; `BoundaryIsSegmentAfterAttribute` states exactly which bytes it is |
| `Multipart.FirstBoundary` | main.py:28-33 | a boundary found is the value of some boundary line; `FirstBoundaryAt` and `FirstBoundaryNone` state which line and when there is none |
| `Multipart.FindBoundary` | main.py:27-33 | the line scan returns the value of the first boundary line, or None when no line declares one |
| `Multipart.FirstBoundaryAt` | main.py:29-33 | the first line holding both markers decides the boundary; lines holding only `Content-Type: multipart/form-data` do not stop the scan |
| `Multipart.FirstBoundaryNone` | main.py:28-35 | the scan finds no boundary exactly when no line holds both markers |
| `Multipart.BoundaryIsSegmentAfterAttribute` | main.py:32 | the boundary is the stripped segment after the first `boundary=`, up to any second `boundary=` |
| `Multipart.Payload` | main.py:42-47 | a part has a payload exactly when it contains a blank line |
| `Multipart.FindAfterHeaders` | main.py:42 | the header/body separator found is the blank line right after a header block that holds none and whose last byte is neither CR nor LF |
| `Multipart.PayloadOfPart` | main.py:42-47 | round trip: a header block with no blank line and a last byte that is neither CR nor LF, then a blank line, body and CRLF, gives back exactly the body, removing one CRLF only, even if the body ends in CRLF |
| `Multipart.BareCrlfPayloadWritesNothing` | main.py:44-49 | after such a header block and blank line, a payload that is exactly `\r\n` becomes empty and writes no file |
| `Multipart.Extension` | main.py:52-59 | the extension is one of `.jpg`, `.png`, `.gif`, `.bin` |
| `Multipart.FirstLine` | main.py:51 | the first line is a prefix of the part and holds no CRLF; `FirstLineOf` states that it is the whole text before the first CRLF |
| `Multipart.FirstLineOf` | main.py:51 | the line the extension is read from is everything before the part's first CRLF |
| `Multipart.ExtensionFromFirstLineOnly` | main.py:51-59 | the extension depends on the part's first line and on nothing after it |
| `Multipart.ExtensionOfPartAfterDelimiter` | main.py:51-59 | a part that starts with CRLF has an empty first line and always gets `.bin` |
| `Multipart.ImageName` | main.py:62 | the name is the timestamp, then `_image`, then the extension, so both can be read back from it |
| `Multipart.PartImage` | main.py:40-62 | a file produced from a part has non-empty contents and a name `timestamp + "_image" + ext` with one of the four extensions |
| `Multipart.PartImageSelection` | main.py:40-62 | a part yields a file exactly when it holds `Content-Type: image/`, a blank line and a non-empty trimmed payload; the file is the trimmed payload under the first-line extension name |
| `Multipart.ImagePartAfterDelimiter` | main.py:40-62 | an image part that starts with CRLF and has a non-empty payload is written as `timestamp_image.bin` with exactly that payload |
| `Multipart.ImagesOf` | main.py:39-66 | at most one file per part; every file has non-empty contents and an image name |
| `Multipart.ImagesOfSnoc` | main.py:39-66 | one more part adds exactly the file that part yields, at the end |
| `Multipart.ImagesOfConcat` | main.py:37-39 | files follow part order: the files of `p + q` are those of `p` followed by those of `q` |
| `Multipart.RepeatedPartsRepeatImages` | main.py:62-66 | no deduplication: `n` copies of an image part give `n` files with the same name |
| `Multipart.SaveImages` | main.py:39-66 | the part loop writes exactly `ImagesOf(parts)`, in order |
| `Multipart.Extract` | main.py:21-67 | every file written has non-empty contents and a name `timestamp_image` plus one of the four extensions |
| `Multipart.ExtractNeedsMarker` | main.py:25 | a request without `multipart/form-data` writes nothing |
| `Multipart.ExtractNeedsBoundaryLine` | main.py:28-35 | a request where no line holds both boundary markers writes nothing |
| `Multipart.ExtractEmptyBoundary` | main.py:29-35 | if the first boundary line's value strips to empty, nothing is written, even when a later line declares a usable boundary |
| `Multipart.ExtractSplitsOnFirstBoundary` | main.py:35-39 | with the marker and a non-empty first boundary `b`, the files are those of the request split on `--` + `b`, in order |
| `Multipart.ProcessMultipartData` | main.py:21-70 | the routine writes exactly `Extract(request, timestamp)`, in write order |

## Left out

- Socket setup and the accept/receive loop with its 5-second timeout, the canned response and closing the connection (main.py:72-120): network I/O. The request arrives as a parameter.
- The constructor and `createDir` (main.py:6-19): they read `response.bin` and create the request directory, which is file-system I/O.
- Joining the directory path, opening and writing each file, and the `print` logging (main.py:63-67): replaced by the returned sequence of `ImageFile` values. Writes to the same name overwrite each other on disk. That is storage behaviour outside the model.
- Generating the timestamp with the clock (main.py:102): `timestamp` is an input string.
- The catch-all `except Exception` (main.py:69-70): the parsing steps cannot raise. The `[1]` index after splitting on `boundary=` is guarded by the `in` test. The split separator `--` + boundary is never empty. Verifying the model's well-formedness confirms both. Only file writes can fail. They are not modelled, and files written before a failure stay on disk.
- Multipart.Extension: its contract states only the four possible results. The precedence among `image/jpeg`/`image/jpg`, `image/png` and `image/gif` is its body. `ExtensionOfPartAfterDelimiter` states the result for the parts main.py actually receives.
- Multipart.Payload: its contract states only when a payload exists. The exact payload is stated by `PayloadOfPart` for parts made of a header block, blank line and body, where the header block holds no blank line and its last byte is neither CR nor LF. Without that last condition the first blank line can start inside the header block: for the block `H\r\n` and body `B` the payload is `\r\nB`, and `Payload` computes that, but no lemma states it. It is not stated for arbitrary byte strings.
- Python's `bytes.split` with an empty separator raises an error. `Split` requires a non-empty separator because main.py only ever passes non-empty ones.
