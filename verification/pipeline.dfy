/**
 The file pipeline (the body of the reader's load handler): header check,
 version byte, image scan, payload search and, for TTP packs, the payload
 header normalisation, as one pure function of the loaded bytes.
 */
module Pipeline {
  import opened Bytes
  import opened Locator
  import opened Image
  import opened TtpHeader

  /** The two recognised content-pack formats. */
  datatype Tag = Cpc | Ttp

  /** The bytes from the marker's offset to the end, patched for TTP. */
  datatype Payload = Payload(offset: nat, data: seq<Byte>)

  /** `InvalidFormat` stops the pipeline; otherwise the header tag, the version
      byte (absent when the file is exactly three bytes long), the image found
      if any, and the payload if the marker was found. */
  datatype Outcome =
    | InvalidFormat
    | Ok(tag: Tag, version: Option<Byte>, image: Option<ImageRecord>, payload: Option<Payload>)

  const CpcBytes: seq<Byte> := [0x43, 0x50, 0x43]
  const TtpBytes: seq<Byte> := [0x54, 0x54, 0x50]

  /** The first three bytes, decoded as text, compared with the two tags. A
      buffer shorter than three bytes yields a shorter header, which matches
      neither. */
  function DecodeTag(bytes: seq<Byte>): (r: Option<Tag>)
    ensures r == Some(Cpc) <==> |bytes| >= 3 && bytes[0] == 0x43 && bytes[1] == 0x50 && bytes[2] == 0x43
    ensures r == Some(Ttp) <==> |bytes| >= 3 && bytes[0] == 0x54 && bytes[1] == 0x54 && bytes[2] == 0x50
  {
    var header := if |bytes| < 3 then bytes else bytes[..3];
    if header == CpcBytes then Some(Cpc)
    else if header == TtpBytes then Some(Ttp)
    else None
  }

  /** The payload step: the first marker, the copy from there to the end, and
      for TTP the check-then-patch of its first eleven bytes. */
  function ExtractPayload(bytes: seq<Byte>, tag: Tag): (r: Option<Payload>)
    ensures r.None? <==> forall j :: !OccursAt(bytes, j, Marker)
    ensures r.Some? ==> IsFirstOccurrence(bytes, Marker, r.value.offset)
    ensures r.Some? ==> |r.value.data| == |bytes| - r.value.offset
    ensures r.Some? && tag == Cpc ==> r.value.data == bytes[r.value.offset..]
    ensures r.Some? && tag == Ttp ==>
              r.value.data == ModifyTTPHeader(bytes[r.value.offset..], TtpCheckBytes)
  {
    var seekPosition := FindByteSequence(bytes, Marker);
    if seekPosition == -1 then None
    else
      var extractedData := bytes[seekPosition..];
      if tag == Ttp then Some(Payload(seekPosition, NormalizeTTPHeader(extractedData, TtpCheckBytes)))
      else Some(Payload(seekPosition, extractedData))
  }

  /** The whole load handler on an already-read buffer. */
  function Process(bytes: seq<Byte>): (r: Outcome)
    ensures r.InvalidFormat? <==> !(|bytes| >= 3 && (bytes[..3] == CpcBytes || bytes[..3] == TtpBytes))
    ensures r.Ok? ==> (r.tag == Cpc <==> bytes[..3] == CpcBytes)
    ensures r.Ok? ==> r.version == At(bytes, 3)
    ensures r.Ok? ==> r.image == ExtractImageFromBytes(bytes)
    ensures r.Ok? ==> r.payload == ExtractPayload(bytes, r.tag)
  {
    match DecodeTag(bytes)
    case None => InvalidFormat
    case Some(tag) =>
      var version := At(bytes, 3);
      var image := ExtractImageFromBytes(bytes);
      Ok(tag, version, image, ExtractPayload(bytes, tag))
  }

  /** The payload found at the first marker `pos`, patched or not, starts at
      `pos` and starts with the marker. */
  lemma PayloadStartsWithMarker(bytes: seq<Byte>, tag: Tag, pos: nat)
    requires IsFirstOccurrence(bytes, Marker, pos)
    ensures ExtractPayload(bytes, tag).Some?
    ensures ExtractPayload(bytes, tag).value.offset == pos
    ensures ExtractPayload(bytes, tag).value.data[..|Marker|] == Marker
  {
    assert OccursAt(bytes, pos, Marker);
    var p := ExtractPayload(bytes, tag).value;
    FirstOccurrenceUnique(bytes, Marker, p.offset, pos);
    forall k | 0 <= k < |Marker|
      ensures p.data[k] == Marker[k]
    {
      if tag == Ttp {
        assert p.data[k] == TtpCheckBytes[k];
      } else {
        assert p.data[k] == bytes[pos..pos + |Marker|][k];
      }
    }
  }

  /** When the first marker leaves room for the full prefix, the TTP payload
      is the canonical prefix followed by the file's bytes after it, whatever
      the eleven bytes at the marker were. */
  lemma TtpPayloadNormalised(bytes: seq<Byte>, pos: nat)
    requires IsFirstOccurrence(bytes, Marker, pos)
    requires pos + |TtpCheckBytes| <= |bytes|
    ensures ExtractPayload(bytes, Ttp)
            == Some(Payload(pos, TtpCheckBytes + bytes[pos + |TtpCheckBytes|..]))
  {
    assert OccursAt(bytes, pos, Marker);
    var seekPosition := FindByteSequence(bytes, Marker);
    FirstOccurrenceUnique(bytes, Marker, seekPosition, pos);
    ModifyLongPayload(bytes[pos..], TtpCheckBytes);
    assert bytes[pos..][|TtpCheckBytes|..] == bytes[pos + |TtpCheckBytes|..];
  }
}
