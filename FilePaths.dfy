/**
 * The two parts `std::filesystem::path` splits a file name into: `stem()` and
 * `extension()`, and the name a record file is given.
 */
module FilePaths {
  import opened Numbers

  /** The extension every record file carries. */
  const METADATA_EXT: string := ".metadata"

  /** The index of the last '.' in `f`, or -1 when there is none. */
  function LastDot(f: string): (k: int)
    ensures -1 <= k < |f|
  {
    if f == [] then -1 else if f[|f| - 1] == '.' then |f| - 1 else LastDot(f[..|f| - 1])
  }

  lemma {:induction false} LastDotShape(f: string)
    ensures var k := LastDot(f);
            && (k >= 0 ==> f[k] == '.')
            && forall i :: k < i < |f| ==> f[i] != '.'
  {
    if f != [] && f[|f| - 1] != '.' {
      LastDotShape(f[..|f| - 1]);
    }
  }

  /**
   * `path::extension()` of a file name: from the last '.' to the end, except that a '.'
   * in first position does not start an extension, and "." and ".." have none.
   */
  function Extension(f: string): string
  {
    if f == "." || f == ".." then ""
    else
      var k := LastDot(f);
      if k <= 0 then "" else f[k..]
  }

  /**
   * An extension is a suffix of the name that starts with its only '.' and is not the whole
   * name (so it runs from the name's last '.'); and every name other than "." and ".."
   * with a '.' after its first character has one.
   */
  lemma ExtensionShape(f: string)
    ensures var x := Extension(f);
            && |x| <= |f| && x == f[|f| - |x|..]
            && (x != [] ==> x[0] == '.' && |x| < |f|)
            && (forall i :: 0 < i < |x| ==> x[i] != '.')
            && (f != "." && f != ".." && (exists i :: 0 < i < |f| && f[i] == '.') ==> x != [])
            && (f == "." || f == ".." ==> x == [])
  {
    LastDotShape(f);
  }

  /** `path::stem()` of a file name: the name without its extension. */
  function Stem(f: string): string
  {
    if f == "." || f == ".." then f
    else
      var k := LastDot(f);
      if k <= 0 then f else f[..k]
  }

  /** Stem and extension put back together give the name. */
  lemma StemThenExtension(f: string)
    ensures Stem(f) + Extension(f) == f
  {
    LastDotShape(f);
  }

  /** The name a record written at `time` gets: `<time>.metadata`. */
  function MetadataFileName(time: int): string
  {
    IntToString(time) + METADATA_EXT
  }

  /** A record file's name splits back into the time it was written at and `.metadata`. */
  lemma MetadataFileNameParts(time: int)
    ensures Extension(MetadataFileName(time)) == METADATA_EXT
    ensures Stem(MetadataFileName(time)) == IntToString(time)
  {
    var s := IntToString(time);
    var f := MetadataFileName(time);
    assert f[|s|] == '.';
    var k := LastDot(f);
    LastDotShape(f);
    assert |s| <= k;
    assert forall i :: |s| < i < |f| ==> f[i] == METADATA_EXT[i - |s|];
    assert k == |s|;
    assert f[k..] == METADATA_EXT;
    assert f[..k] == s;
  }
}
