/**
  DuplicateSetInfo: the form in which SaveResult writes a set out, with the
  digest as BitConverter.ToString text and the files as full names.
*/
module Report {
  import opened Wrappers
  import opened Files
  import opened Linq
  import opened HexFormat
  import opened Pipeline

  datatype DuplicateSetInfo = DuplicateSetInfo(hash: string, files: seq<string>)

  /** FileInfo.FullName. */
  function FullName(f: FileInfo): string
  {
    f.fullName
  }

  /** The DuplicateSetInfo constructor: the digest text reads back as the
      set's digest, three characters per byte less the last separator, and
      the names are the set's files' full names in order. */
  function Info(dup: DuplicateSet): (info: DuplicateSetInfo)
    ensures ParseHex(info.hash) == Some(dup.hash)
    ensures |info.hash| == if dup.hash == [] then 0 else 3 * |dup.hash| - 1
    ensures |info.files| == |dup.files| && forall i | 0 <= i < |dup.files| :: info.files[i] == dup.files[i].fullName
  {
    ParseToString(dup.hash);
    DuplicateSetInfo(BitConverterToString(dup.hash), Select(dup.files, FullName))
  }

  /** Two sets written with the same digest text have the same digest. */
  lemma InfoHashInjective(a: DuplicateSet, b: DuplicateSet)
    requires Info(a).hash == Info(b).hash
    ensures a.hash == b.hash
  {
    assert Some(a.hash) == ParseHex(Info(a).hash) == ParseHex(Info(b).hash) == Some(b.hash);
  }
}
