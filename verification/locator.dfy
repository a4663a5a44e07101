/**
 The sequence locator (`findByteSequence`): a left-to-right scan for the
 first occurrence of a byte pattern, answering its offset or -1.
 */
module Locator {
  import opened Bytes
  import opened Signature

  /** The payload marker `70 6D 66 00 0A 0D`. */
  const Marker: seq<Byte> := [0x70, 0x6D, 0x66, 0x00, 0x0A, 0x0D]

  /** `i` is the least offset at which `pat` occurs in `b`. */
  predicate IsFirstOccurrence(b: seq<Byte>, pat: seq<Byte>, i: int)
  {
    OccursAt(b, i, pat) && forall j :: 0 <= j < i ==> !OccursAt(b, j, pat)
  }

  /** There is only one first occurrence. */
  lemma FirstOccurrenceUnique(b: seq<Byte>, pat: seq<Byte>, i: int, j: int)
    requires IsFirstOccurrence(b, pat, i) && IsFirstOccurrence(b, pat, j)
    ensures i == j
  {
  }

  /** The scan from offset `i`: offsets `i .. |b| - |pat|` are tried in order. */
  function FindFrom(b: seq<Byte>, pat: seq<Byte>, i: nat): (r: int)
    ensures r == -1 || (i <= r && OccursAt(b, r, pat))
    ensures r >= 0 ==> forall j :: i <= j < r ==> !OccursAt(b, j, pat)
    ensures r == -1 <==> forall j :: i <= j ==> !OccursAt(b, j, pat)
    decreases |b| - i
  {
    if i > |b| - |pat| then -1
    else if CheckSignature(b, i, pat) then i
    else FindFrom(b, pat, i + 1)
  }

  /** The least offset at which `pat` occurs, or -1 when it occurs nowhere
      (in particular when the buffer is shorter than the pattern). */
  function FindByteSequence(b: seq<Byte>, pat: seq<Byte>): (r: int)
    ensures r == -1 || IsFirstOccurrence(b, pat, r)
    ensures r == -1 <==> forall j :: !OccursAt(b, j, pat)
    ensures |b| < |pat| ==> r == -1
  {
    FindFrom(b, pat, 0)
  }

  /** `findByteSequence`'s nested loops, with the early exit of the inner comparison,
      compute the same first occurrence. */
  method FindByteSequenceLoop(bytes: seq<Byte>, sequence: seq<Byte>) returns (r: int)
    ensures r == -1 || IsFirstOccurrence(bytes, sequence, r)
    ensures r == -1 <==> forall j :: !OccursAt(bytes, j, sequence)
  {
    var i := 0;
    while i <= |bytes| - |sequence|
      invariant 0 <= i
      invariant forall j :: 0 <= j < i ==> !OccursAt(bytes, j, sequence)
    {
      var matched := true;
      var j := 0;
      while j < |sequence|
        invariant 0 <= j <= |sequence|
        invariant matched
        invariant bytes[i..i + j] == sequence[..j]
      {
        if bytes[i + j] != sequence[j] {
          matched := false;
          break;
        }
        j := j + 1;
      }
      if matched {
        assert bytes[i..i + |sequence|] == sequence[..|sequence|];
        return i;
      }
      assert bytes[i + j] != sequence[j];
      i := i + 1;
    }
    return -1;
  }
}
