/**
 The signature matcher (`checkSignature`): a positional comparison of a
 fixed pattern against a buffer at a given start offset.
 */
module Signature {
  import opened Bytes

  /** The comparison loop from position `k` on: false at the first position
      whose read (possibly `undefined`) differs from the pattern byte. */
  function CheckSignatureFrom(b: seq<Byte>, start: int, sig: seq<Byte>, k: nat): (r: bool)
    requires k <= |sig|
    ensures r <==> forall j :: k <= j < |sig| ==> At(b, start + j) == Some(sig[j])
    decreases |sig| - k
  {
    if k == |sig| then true
    else if At(b, start + k) != Some(sig[k]) then false
    else CheckSignatureFrom(b, start, sig, k + 1)
  }

  /** True exactly when the whole (non-empty) signature lies inside the
      buffer at `start`; a start that would read past either end is a plain
      `false`, not an error. An empty signature matches anywhere, because the
      comparison loop never runs. */
  function CheckSignature(b: seq<Byte>, start: int, sig: seq<Byte>): (r: bool)
    ensures r <==> |sig| == 0 || OccursAt(b, start, sig)
  {
    var r := CheckSignatureFrom(b, start, sig, 0);
    if |sig| == 0 then r
    else
      ReadsMatchIffOccurs(b, start, sig);
      r
  }

  /** Every read of a non-empty pattern succeeding and agreeing is the same
      as the pattern lying inside the buffer: the first and last reads pin
      the start and end inside the bounds. */
  lemma ReadsMatchIffOccurs(b: seq<Byte>, start: int, sig: seq<Byte>)
    requires |sig| > 0
    ensures (forall j :: 0 <= j < |sig| ==> At(b, start + j) == Some(sig[j]))
            <==> OccursAt(b, start, sig)
  {
    if forall j :: 0 <= j < |sig| ==> At(b, start + j) == Some(sig[j]) {
      assert At(b, start + 0) == Some(sig[0]);
      assert At(b, start + (|sig| - 1)) == Some(sig[|sig| - 1]);
      forall j | 0 <= j < |sig|
        ensures b[start..start + |sig|][j] == sig[j]
      {
        assert At(b, start + j) == Some(sig[j]);
      }
    }
  }
}
