/**
 The download file name: the input file's name with the regular expression
 `\.[^/.]+$` removed once, then `.mf` appended.
 */
module DownloadName {
  import opened Bytes

  /** The expression `\.[^/.]+$` matches at `j`: a dot, then one or more
      characters none of which is `/` or `.`, then the end of the name.
      Only the last dot of a name can start a match, so there is at most one. */
  predicate ExtensionAt(name: string, j: int)
  {
    && 0 <= j < |name| - 1
    && name[j] == '.'
    && forall k :: j < k < |name| ==> name[k] != '/' && name[k] != '.'
  }

  /** A backward walk over a tail `name[i..]` already known to hold neither
      `/` nor `.`, looking for the dot that starts a match. */
  function ExtensionStartFrom(name: string, i: nat): (r: Option<nat>)
    requires i <= |name|
    requires forall k :: i <= k < |name| ==> name[k] != '/' && name[k] != '.'
    ensures r.Some? ==> ExtensionAt(name, r.value)
    ensures r.None? ==> forall j :: !ExtensionAt(name, j)
    decreases i
  {
    if i == 0 then None
    else if name[i - 1] == '.' then
      if i < |name| then Some(i - 1)
      else None
    else if name[i - 1] == '/' then None
    else ExtensionStartFrom(name, i - 1)
  }

  /** `name.replace(/\.[^/.]+$/, "")`: the text before the match, or the
      whole name when the expression does not match. */
  function StripExtension(name: string): (r: string)
    ensures forall j :: ExtensionAt(name, j) ==> r == name[..j]
    ensures (forall j :: !ExtensionAt(name, j)) ==> r == name
  {
    match ExtensionStartFrom(name, |name|)
    case Some(j) => name[..j]
    case None => name
  }

  /** The saved file's name always ends in `.mf`; what precedes it is the
      original name, less its extension when it has one. */
  function MfFileName(name: string): (r: string)
    ensures |r| >= 3 && r[|r| - 3..] == ".mf"
    ensures forall j :: ExtensionAt(name, j) ==> r == name[..j] + ".mf"
    ensures (forall j :: !ExtensionAt(name, j)) ==> r == name + ".mf"
  {
    StripExtension(name) + ".mf"
  }
}
