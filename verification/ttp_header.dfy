/**
 The header validator and patcher for TTP payloads (`checkTTPHeader`,
 `modifyTTPHeader`): the extracted payload must begin with an 11-byte
 canonical prefix, and is overwritten in place when it does not.
 */
module TtpHeader {
  import opened Bytes
  import opened Signature

  /** The canonical TTP payload prefix; its first six bytes are the marker. */
  const TtpCheckBytes: seq<Byte> := [0x70, 0x6D, 0x66, 0x00, 0x0A, 0x0D, 0x01, 0x00, 0x01, 0x00, 0x01]

  /** The payload starts with `expected`; a payload shorter than `expected`
      never passes, because its missing bytes read as `undefined`. */
  function CheckTTPHeader(data: seq<Byte>, expected: seq<Byte>): (r: bool)
    ensures r <==> |expected| <= |data| && data[..|expected|] == expected
  {
    CheckSignature(data, 0, expected)
  }

  /** A store into a `Uint8Array`: an index outside the array is dropped
      silently and the length never changes. */
  function Store(data: seq<Byte>, i: int, v: Byte): (r: seq<Byte>)
    ensures |r| == |data|
    ensures forall k :: 0 <= k < |r| ==> r[k] == (if k == i then v else data[k])
  {
    if 0 <= i < |data| then data[i := v] else data
  }

  /** The overwrite loop from position `i` on. */
  function ModifyFrom(data: seq<Byte>, expected: seq<Byte>, i: nat): (r: seq<Byte>)
    requires i <= |expected|
    ensures |r| == |data|
    ensures forall k :: 0 <= k < |r| ==>
              r[k] == (if i <= k < |expected| then expected[k] else data[k])
    decreases |expected| - i
  {
    if i == |expected| then data
    else ModifyFrom(Store(data, i, expected[i]), expected, i + 1)
  }

  /** The patched payload has the same length, carries `expected` on every
      position the two share, and is unchanged from position `|expected|` on. */
  function ModifyTTPHeader(data: seq<Byte>, expected: seq<Byte>): (r: seq<Byte>)
    ensures |r| == |data|
    ensures forall k :: 0 <= k < |r| && k < |expected| ==> r[k] == expected[k]
    ensures forall k :: |expected| <= k < |r| ==> r[k] == data[k]
  {
    ModifyFrom(data, expected, 0)
  }

  /** Patching twice is patching once. */
  lemma ModifyIdempotent(data: seq<Byte>, expected: seq<Byte>)
    ensures ModifyTTPHeader(ModifyTTPHeader(data, expected), expected)
            == ModifyTTPHeader(data, expected)
  {
    var once := ModifyTTPHeader(data, expected);
    var twice := ModifyTTPHeader(once, expected);
    assert forall k :: 0 <= k < |twice| ==> twice[k] == once[k];
  }

  /** A payload that passes the check is left exactly as it is by the patch. */
  lemma ValidHeaderUnmodified(data: seq<Byte>, expected: seq<Byte>)
    requires CheckTTPHeader(data, expected)
    ensures ModifyTTPHeader(data, expected) == data
  {
    var r := ModifyTTPHeader(data, expected);
    forall k | 0 <= k < |r|
      ensures r[k] == data[k]
    {
      if k < |expected| {
        assert data[..|expected|][k] == data[k];
      }
    }
  }

  /** A payload at least as long as the prefix passes the check once patched;
      a shorter one never does. */
  lemma ModifyEstablishesHeader(data: seq<Byte>, expected: seq<Byte>)
    ensures CheckTTPHeader(ModifyTTPHeader(data, expected), expected) <==> |expected| <= |data|
  {
    var r := ModifyTTPHeader(data, expected);
    if |expected| <= |data| {
      assert r[..|expected|] == expected;
    }
  }

  /** A payload at least as long as the prefix becomes the prefix followed by
      its own bytes after it. */
  lemma ModifyLongPayload(data: seq<Byte>, expected: seq<Byte>)
    requires |expected| <= |data|
    ensures ModifyTTPHeader(data, expected) == expected + data[|expected|..]
  {
    var r := ModifyTTPHeader(data, expected);
    var s := expected + data[|expected|..];
    forall k | 0 <= k < |r|
      ensures r[k] == s[k]
    {
      if k >= |expected| {
        assert s[k] == data[k];
      }
    }
  }

  /** The pipeline's check-then-patch: patch only when the check fails. */
  function NormalizeTTPHeader(data: seq<Byte>, expected: seq<Byte>): (r: seq<Byte>)
    ensures r == ModifyTTPHeader(data, expected)
  {
    if !CheckTTPHeader(data, expected) then
      ModifyTTPHeader(data, expected)
    else
      ValidHeaderUnmodified(data, expected);
      data
  }

  /** `modifyTTPHeader`'s in-place loop on a typed array. */
  method ModifyTTPHeaderInPlace(extractedData: array<Byte>, ttpCheckBytes: seq<Byte>)
    modifies extractedData
    ensures extractedData[..] == ModifyTTPHeader(old(extractedData[..]), ttpCheckBytes)
  {
    ghost var original := extractedData[..];
    var i := 0;
    while i < |ttpCheckBytes|
      invariant 0 <= i <= |ttpCheckBytes|
      invariant forall k :: 0 <= k < extractedData.Length ==>
                  extractedData[k] == (if k < i then ttpCheckBytes[k] else original[k])
    {
      if i < extractedData.Length {
        extractedData[i] := ttpCheckBytes[i];
      }
      i := i + 1;
    }
  }
}
