/**
  The file-system values the checker works on. A real FileInfo is a handle
  on a disk entry; here it is the snapshot the checker can observe: the full
  path, the length taken at enumeration time, the attribute flags, and the
  bytes that opening the file for reading would return (None when the file
  cannot be opened any more when it is hashed).
*/
module Files {
  import opened Wrappers

  newtype byte = x: int | 0 <= x < 256

  /** A SHA-256 digest; the model does not fix its length. */
  type Digest = seq<byte>

  /** FileAttributes.System. */
  const SystemAttribute: bv32 := 0x4

  datatype FileInfo = FileInfo(fullName: string, length: nat, attributes: bv32, content: Option<seq<byte>>)
}
