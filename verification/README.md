# TTPExtractor core, modelled in Dafny

TTPExtractor is a browser page onto which a user drops a "content pack"
file (a `CPC` or `TTP` pack). The page checks the 3-byte format tag, reads
a version byte, previews the first embedded PNG or JPEG image, and offers
the payload that starts at the marker `70 6D 66 00 0A 0D` for download as
a `.mf` file. For `TTP` packs it first normalises the payload's first
eleven bytes to `70 6D 66 00 0A 0D 01 00 01 00 01`.

This project models that byte-scanning pipeline of `app.js` as pure Dafny
functions over `seq<bv8>`. It proves each scan correct against an
independent description: least offsets, suffixes, prefix equality, and the
frame of the patch.

Modules, one per component:

- `Bytes` (`bytes.dfy`): the `Byte` type, `Option`, the typed-array read
  `At` (an index outside the buffer yields `undefined`, here `None`), and
  `OccursAt`, meaning "a pattern lies inside the buffer at an offset".
- `Signature` (`signature.dfy`): `checkSignature`.
- `Locator` (`locator.dfy`): `findByteSequence` and the marker constant.
- `Image` (`image.dfy`): `extractImageFromBytes`, with the PNG signature
  (section 5.2 of the PNG specification, ISO/IEC 15948) and the JPEG SOI
  marker plus the next `FF` (ITU-T T.81, Table B.1).
- `TtpHeader` (`ttp_header.dfy`): `checkTTPHeader` and `modifyTTPHeader`.
  The patch is a pure function and also an in-place method on an array.
- `DownloadName` (`download_name.dfy`): the expression at `app.js:147`.
- `Pipeline` (`pipeline.dfy`): the reader's `onload` body, as
  `Process(bytes): Outcome`. The outcome is `InvalidFormat`, or
  `Ok(tag, version, image, payload)` with optional parts.

Behaviour kept exactly as the code has it:

- The loop at app.js:168 stops strictly below length - 8, so a signature
  in the last eight offsets is never tried, even the 3-byte JPEG one, and
  a buffer of at most eight bytes never yields an image.
  `Image.TailSignatureIgnored` states this.
- `checkSignature` with an empty signature is true at any start, because
  its loop never runs.
- `findByteSequence` with an empty pattern answers 0.
- For a three-byte file `bytes[3]` is `undefined`, so `version` is `None`.
- The text decoding of the first three bytes is modelled as a byte
  comparison. Three bytes decode to `CPC` or `TTP` only when they are
  exactly those ASCII bytes: a UTF-8 byte-order mark would be stripped and
  leave fewer than three characters, and any other byte decodes to a
  character outside ASCII.
- Writes past the end of a `Uint8Array` are dropped, so the patch never
  changes the payload's length (`TtpHeader.Store`).
- The pipeline patches only when the check fails. `TtpHeader.NormalizeTTPHeader`
  proves that this equals patching unconditionally.

## Model

| member | source | states |
|---|---|---|
| Signature.CheckSignatureFrom | app.js:195-200 | the comparison loop from position k is true iff every later read is present and equals the pattern byte |
| Signature.CheckSignature | app.js:194-201 | true iff the signature is empty or lies wholly inside the buffer at the start; an out-of-range start is false, not an error |
| Signature.ReadsMatchIffOccurs | app.js:194-201 | for a non-empty pattern, all reads agreeing is equivalent to the pattern lying inside the buffer at that offset |
| Locator.FindFrom | app.js:108-120 | the scan from i returns -1 or an occurrence at an offset of at least i with none between; -1 iff no occurrence at or after i |
| Locator.FindByteSequence | app.js:106-121 | returns the least offset where the pattern occurs, or -1 iff it occurs nowhere; a buffer shorter than the pattern gives -1 |
| Locator.FindByteSequenceLoop | app.js:106-121 | the nested loops with early exit return the least occurrence, or -1 iff there is none |
| Image.ScanFrom | app.js:168-181 | the scan from i finds the least scanned offset at or after i with a signature; PNG iff the PNG signature is there; none iff no scanned offset from i has one |
| Image.ExtractImageFromBytes | app.js:158-192 | the image is at the least offset below length-8 with a PNG or JPEG signature, is PNG iff PNG matches there, and holds the rest of the buffer; none iff no such offset; none for buffers of at most 8 bytes |
| Image.EarliestJpegWins | app.js:168-181 | a JPEG signature at a scanned offset (below length-8) with no earlier signature is reported, even when a PNG signature comes later |
| Image.TailSignatureIgnored | app.js:168 | a PNG or JPEG signature starting in the last eight offsets, with none before it, yields no image (a buffer that is just the PNG signature gives none) |
| Image.ExtractImageLoop | app.js:164-191 | the loop with its index and PNG flags gives the same record as the functional scan |
| TtpHeader.CheckTTPHeader | app.js:123-131 | true iff the payload is at least as long as the expected prefix and starts with it |
| TtpHeader.Store | app.js:136 | a typed-array store keeps the length, changes only an in-range index, and drops an out-of-range one |
| TtpHeader.ModifyFrom | app.js:135-137 | the overwrite loop from i keeps the length, writes the expected bytes at shared positions from i, and leaves the rest |
| TtpHeader.ModifyTTPHeader | app.js:133-138 | the patched payload keeps its length, carries the expected byte at every shared position, and is unchanged from the prefix length on |
| TtpHeader.ModifyIdempotent | app.js:133-138 | patching twice equals patching once |
| TtpHeader.ValidHeaderUnmodified | app.js:86-88 | a payload that passes the check is left identical by the patch |
| TtpHeader.ModifyEstablishesHeader | app.js:133-138 | the patched payload passes the check iff it is at least as long as the prefix |
| TtpHeader.ModifyLongPayload | app.js:133-138 | a payload at least as long as the prefix becomes exactly the prefix followed by its own bytes after the prefix |
| TtpHeader.NormalizeTTPHeader | app.js:84-90 | check-then-patch equals the unconditional patch, so callers cannot tell a valid payload from a repaired one |
| TtpHeader.ModifyTTPHeaderInPlace | app.js:133-138 | the in-place loop on an array leaves it equal to the functional patch of its old contents |
| DownloadName.ExtensionStartFrom | app.js:147 | the backward walk finds a position where the extension expression matches, or reports that it matches nowhere |
| DownloadName.StripExtension | app.js:147 | the replacement keeps the text before the match when the expression matches, and the whole name otherwise |
| DownloadName.MfFileName | app.js:147 | the download name ends in .mf and is the name less its extension (a dot then a non-empty run free of / and .) plus .mf, or the whole name plus .mf |
| Pipeline.DecodeTag | app.js:56-61 | the tag is CPC iff the first three bytes are 43 50 43 and TTP iff they are 54 54 50; shorter buffers have no tag |
| Pipeline.ExtractPayload | app.js:75-96 | no payload iff the marker occurs nowhere; otherwise it starts at the first marker, has length = buffer length minus offset, equals the rest of the buffer for CPC and its patched form for TTP |
| Pipeline.Process | app.js:52-97 | InvalidFormat iff the first three bytes are neither CPC nor TTP (including inputs shorter than 3); otherwise the tag, the byte at index 3 if present, the image scan and the payload of the whole buffer |
| Pipeline.PayloadStartsWithMarker | app.js:79-81 | when the first marker is at pos, the payload of either tag exists, starts at pos and starts with the marker |
| Pipeline.TtpPayloadNormalised | app.js:84-90 | when the first marker is at pos with at least eleven bytes from there, the TTP payload is the canonical 11-byte prefix followed by the file's bytes from pos+11 on, whatever the original bytes were |

## Left out

- DOM construction and styling (app.js:1-28) and the drag-and-drop handlers (app.js:30-47): page layout with no logic.
- `FileReader` loading and its error handler (app.js:49-51, 99-103): asynchronous I/O at the boundary. The model takes the already-loaded bytes as its input.
- `Blob`, `URL.createObjectURL` and the anchor and image elements in `createDownloadButton` and `displayImage` (app.js:140-156, 203-220): browser services. Only the file-name expression at line 147 is modelled. The image's media type string is represented by `MediaKind`.
- The status message texts written to the output element (app.js:59, 65, 72, 95): presentation. The outcomes are constructors of `Outcome` instead.
- File names are Dafny strings, sequences of Unicode scalar values, where JavaScript's `replace` works on UTF-16 code units. Since `/` and `.` are single code units, the rewrite gives the same result on every name both can represent.
- `TextDecoder`: a platform decoder. It is replaced by the byte comparison described above.
- Mutation of the input buffer: `slice` copies, and the model's sequences are immutable values, so the input is never changed by construction. The in-place patch is modelled on its own array only.
