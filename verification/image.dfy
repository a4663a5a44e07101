/**
 The embedded-image extractor (`extractImageFromBytes`): the earliest offset
 carrying a PNG signature (section 5.2 of the PNG specification, ISO/IEC
 15948) or a JPEG start-of-image marker followed by the first byte of the
 next marker (ITU-T T.81, Table B.1), and everything from there to the end
 of the buffer.
 */
module Image {
  import opened Bytes
  import opened Signature

  const PngSignature: seq<Byte> := [0x89, 0x50, 0x4E, 0x47, 0x0D, 0x0A, 0x1A, 0x0A]
  const JpegSignature: seq<Byte> := [0xFF, 0xD8, 0xFF]

  datatype MediaKind = Png | Jpeg

  /** An image found in the buffer: where it starts, which format, and the
      bytes from that offset to the end of the buffer (no end delimiter). */
  datatype ImageRecord = ImageRecord(offset: nat, kind: MediaKind, bytes: seq<Byte>)

  /** Some image signature starts at offset `i`. */
  predicate SignatureAt(b: seq<Byte>, i: int)
  {
    OccursAt(b, i, PngSignature) || OccursAt(b, i, JpegSignature)
  }

  /** The offsets the scan tries: strictly below `|b| - 8`, so the last eight
      offsets are never examined, even for the three-byte JPEG signature. */
  predicate Scanned(b: seq<Byte>, i: int)
  {
    0 <= i < |b| - |PngSignature|
  }

  /** `rec` is the image found at offset `i`: PNG whenever the PNG signature
      is there (it is tried first), and the remainder of the buffer. */
  predicate FoundAt(b: seq<Byte>, rec: ImageRecord)
  {
    && Scanned(b, rec.offset)
    && SignatureAt(b, rec.offset)
    && (rec.kind == Png <==> OccursAt(b, rec.offset, PngSignature))
    && rec.bytes == b[rec.offset..]
  }

  /** The scan from offset `i` on. */
  function ScanFrom(b: seq<Byte>, i: nat): (r: Option<ImageRecord>)
    ensures r.Some? ==> FoundAt(b, r.value) && i <= r.value.offset
    ensures r.Some? ==> forall j :: i <= j < r.value.offset ==> !SignatureAt(b, j)
    ensures r.None? <==> forall j :: i <= j && Scanned(b, j) ==> !SignatureAt(b, j)
    decreases |b| - i
  {
    if i >= |b| - |PngSignature| then None
    else if CheckSignature(b, i, PngSignature) then
      assert SignatureAt(b, i);
      Some(ImageRecord(i, Png, b[i..]))
    else if CheckSignature(b, i, JpegSignature) then
      assert SignatureAt(b, i);
      Some(ImageRecord(i, Jpeg, b[i..]))
    else
      assert !SignatureAt(b, i);
      ScanFrom(b, i + 1)
  }

  /** The earliest scanned offset with either signature wins, PNG breaking a
      tie at the same offset; no image when no scanned offset has one, and
      hence never for a buffer of at most eight bytes. */
  function ExtractImageFromBytes(b: seq<Byte>): (r: Option<ImageRecord>)
    ensures r.Some? ==> FoundAt(b, r.value)
    ensures r.Some? ==> forall j :: 0 <= j < r.value.offset ==> !SignatureAt(b, j)
    ensures r.None? <==> forall j :: Scanned(b, j) ==> !SignatureAt(b, j)
    ensures |b| <= |PngSignature| ==> r.None?
  {
    ScanFrom(b, 0)
  }

  /** A JPEG signature at a scanned offset with no signature before it is the
      image reported, even when a PNG signature follows later. (No PNG
      signature can start at the same offset: the first bytes differ.) */
  lemma EarliestJpegWins(b: seq<Byte>, i: nat)
    requires Scanned(b, i) && OccursAt(b, i, JpegSignature)
    requires forall j :: 0 <= j < i ==> !SignatureAt(b, j)
    ensures ExtractImageFromBytes(b) == Some(ImageRecord(i, Jpeg, b[i..]))
  {
    var r := ExtractImageFromBytes(b);
    // The JPEG match puts 0xFF at `i`, where a PNG match would need 0x89.
    assert b[i] == JpegSignature[0];
    assert !OccursAt(b, i, PngSignature);
    assert SignatureAt(b, i);
    assert r.Some?;
    assert r.value.offset == i;
  }

  /** A signature that starts in the last eight offsets is not found: a
      buffer whose only signature starts there, PNG or JPEG, yields no image.
      The smallest case is a buffer holding just the PNG signature. */
  lemma TailSignatureIgnored(b: seq<Byte>, i: nat)
    requires SignatureAt(b, i) && i >= |b| - |PngSignature|
    requires forall j :: 0 <= j < i ==> !SignatureAt(b, j)
    ensures ExtractImageFromBytes(b).None?
  {
  }

  /** `extractImageFromBytes`'s loop with its `imageIndex` / `isPng` flags computes the
      same result as the functional scan. */
  method ExtractImageLoop(byteArray: seq<Byte>) returns (r: Option<ImageRecord>)
    ensures r == ExtractImageFromBytes(byteArray)
  {
    var imageIndex := -1;
    var isPng := false;
    var i := 0;
    while i < |byteArray| - |PngSignature|
      invariant 0 <= i
      invariant imageIndex == -1
      invariant ScanFrom(byteArray, i) == ExtractImageFromBytes(byteArray)
    {
      if CheckSignature(byteArray, i, PngSignature) {
        imageIndex := i;
        isPng := true;
        break;
      }
      if CheckSignature(byteArray, i, JpegSignature) {
        imageIndex := i;
        isPng := false;
        break;
      }
      i := i + 1;
    }
    if imageIndex == -1 {
      return None;
    }
    var extractedBytes := byteArray[imageIndex..];
    return Some(ImageRecord(imageIndex, if isPng then Png else Jpeg, extractedBytes));
  }
}
