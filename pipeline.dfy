/**
  What Checker.Check computes, as functions of the files the directory
  enumeration listed and of the digest function: drop system files, keep
  the first of every path (compared ignoring case), group by length, hash
  the members of every group of two or more, group those by digest, and
  report every digest group of two or more. Opening a file that can no
  longer be read ends the whole check with an error.
*/
module Pipeline {
  import opened Wrappers
  import opened Files
  import opened Linq
  import opened Comparers

  /** The exception that escapes Check: a file could not be opened for reading. */
  datatype CheckError = IOReadError(path: string)

  /** DuplicateSet: a digest and the files whose contents have it. */
  datatype DuplicateSet = DuplicateSet(hash: Digest, files: seq<FileInfo>)

  /** A HaFile as the digest GroupBy sees it: its file and its Hash property. */
  datatype HashedFile = HashedFile(file: FileInfo, hash: Option<Digest>)

  /** The Where clause: (Attributes & FileAttributes.System) == 0. */
  predicate NonSystem(f: FileInfo)
  {
    f.attributes & SystemAttribute == 0
  }

  /** The files Check works on: system files dropped, then Distinct by path
      ignoring case. */
  function Enumerate(listed: seq<FileInfo>): seq<FileInfo>
  {
    Distinct(Where(listed, NonSystem), SameFile)
  }

  /** HaFile.Length, read from the FileInfo when the HaFile is made. */
  function LengthOf(f: FileInfo): nat
  {
    f.length
  }

  /** The default comparer GroupBy uses for the long lengths. */
  predicate SameLength(a: nat, b: nat)
  {
    a == b
  }

  function GroupByLength(files: seq<FileInfo>): seq<Grouping<nat, FileInfo>>
  {
    GroupBy(files, LengthOf, SameLength)
  }

  /** HaFile.ComputeHash: open the file and digest its bytes, or fail. */
  function ReadAndHash(f: FileInfo, sha: seq<byte> -> Digest): Result<Digest, CheckError>
  {
    match f.content
    case None => Failure(IOReadError(f.fullName))
    case Some(bytes) => Success(sha(bytes))
  }

  /** The position of the first file that cannot be opened, or |fs| when
      every file can. */
  function FirstUnreadable(fs: seq<FileInfo>): (i: nat)
    ensures i <= |fs|
    ensures forall j | 0 <= j < i :: fs[j].content.Some?
    ensures i < |fs| ==> fs[i].content.None?
    decreases |fs|
  {
    if fs == [] then 0
    else if fs[0].content.None? then 0
    else 1 + FirstUnreadable(fs[1..])
  }

  /** ComputeHash on the members of one length group, in order: the first
      file that cannot be opened stops it with an error naming that file;
      otherwise every file is paired with the digest of its contents. */
  function HashAll(fs: seq<FileInfo>, sha: seq<byte> -> Digest): (r: Result<seq<HashedFile>, CheckError>)
    ensures r.Failure? <==> FirstUnreadable(fs) < |fs|
    ensures r.Failure? ==> r.error == IOReadError(fs[FirstUnreadable(fs)].fullName)
    ensures r.Success? ==> |r.value| == |fs| && forall i | 0 <= i < |fs| ::
      r.value[i] == HashedFile(fs[i], Some(sha(fs[i].content.value)))
    decreases |fs|
  {
    if fs == [] then Success([])
    else
      var n := |fs| - 1;
      FirstUnreadableSnoc(fs);
      match HashAll(fs[..n], sha)
      case Failure(e) => Failure(e)
      case Success(hs) =>
        match ReadAndHash(fs[n], sha)
        case Failure(e) => Failure(e)
        case Success(d) => Success(hs + [HashedFile(fs[n], Some(d))])
  }

  /** FirstUnreadable seen from the last file: the prefix's answer, unless
      the prefix is all readable. */
  lemma FirstUnreadableSnoc(fs: seq<FileInfo>)
    requires fs != []
    ensures var n := |fs| - 1;
      FirstUnreadable(fs) == if FirstUnreadable(fs[..n]) < n then FirstUnreadable(fs[..n]) else FirstUnreadable(fs[..n]) + (if fs[n].content.None? then 0 else 1)
  {
    var n := |fs| - 1;
    var i, i' := FirstUnreadable(fs), FirstUnreadable(fs[..n]);
    assert forall j | 0 <= j < n :: fs[..n][j] == fs[j];
    FirstUnreadableUnique(fs, i);
    FirstUnreadableUnique(fs[..n], i');
    if i' < n {
      FirstUnreadableUnique(fs, i');
    } else if fs[n].content.None? {
      FirstUnreadableUnique(fs, n);
    }
  }

  /** FirstUnreadable is the only position with its two properties. */
  lemma {:induction false} FirstUnreadableUnique(fs: seq<FileInfo>, k: nat)
    requires k <= |fs|
    requires forall j | 0 <= j < k :: fs[j].content.Some?
    requires k < |fs| ==> fs[k].content.None?
    ensures FirstUnreadable(fs) == k
    decreases |fs|
  {
    if fs != [] && k > 0 {
      FirstUnreadableUnique(fs[1..], k - 1);
    }
  }

  /** The digest key of the second GroupBy. */
  function HashKey(h: HashedFile): Option<Digest>
  {
    h.hash
  }

  /** HaFile.FileInfo. */
  function FileOf(h: HashedFile): FileInfo
  {
    h.file
  }

  /** `f.Key ?? []`. */
  function KeyOrEmpty(key: Option<Digest>): Digest
  {
    if key.Some? then key.value else []
  }

  /** The inner foreach: one DuplicateSet per digest group of two or more. */
  function Assemble(hgs: seq<Grouping<Option<Digest>, HashedFile>>): seq<DuplicateSet>
    decreases |hgs|
  {
    if hgs == [] then []
    else
      var g := hgs[|hgs| - 1];
      Assemble(hgs[..|hgs| - 1])
        + if |g.elements| <= 1 then [] else [DuplicateSet(KeyOrEmpty(g.key), Select(g.elements, FileOf))]
  }

  /** The digest groups of one length group whose members could all be read. */
  function HashGroups(hs: seq<HashedFile>): seq<Grouping<Option<Digest>, HashedFile>>
  {
    GroupBy(hs, HashKey, HashEquals)
  }

  /** One turn of the outer foreach: nothing for a group of one; otherwise
      hash every member, then a set per digest group of two or more. */
  function CheckGroup(els: seq<FileInfo>, sha: seq<byte> -> Digest): Result<seq<DuplicateSet>, CheckError>
  {
    if |els| <= 1 then Success([])
    else
      match HashAll(els, sha)
      case Failure(e) => Failure(e)
      case Success(hs) => Success(Assemble(HashGroups(hs)))
  }

  /** The outer foreach over the length groups. */
  function CheckGroups(gs: seq<Grouping<nat, FileInfo>>, sha: seq<byte> -> Digest): Result<seq<DuplicateSet>, CheckError>
    decreases |gs|
  {
    if gs == [] then Success([])
    else
      match CheckGroups(gs[..|gs| - 1], sha)
      case Failure(e) => Failure(e)
      case Success(acc) =>
        match CheckGroup(gs[|gs| - 1].elements, sha)
        case Failure(e) => Failure(e)
        case Success(sets) => Success(acc + sets)
  }

  /** The list Check returns, or the error it throws. */
  function CheckSpec(listed: seq<FileInfo>, sha: seq<byte> -> Digest): Result<seq<DuplicateSet>, CheckError>
  {
    CheckGroups(GroupByLength(Enumerate(listed)), sha)
  }

  /** The files ComputeHash is called on, in order: the members of every
      length group of two or more. */
  function HashOrderOf(gs: seq<Grouping<nat, FileInfo>>): seq<FileInfo>
    decreases |gs|
  {
    if gs == [] then []
    else
      var g := gs[|gs| - 1];
      HashOrderOf(gs[..|gs| - 1]) + if |g.elements| <= 1 then [] else g.elements
  }

  function HashOrder(listed: seq<FileInfo>): seq<FileInfo>
  {
    HashOrderOf(GroupByLength(Enumerate(listed)))
  }

  /** Every file of every set, set after set. */
  function AllFiles(sets: seq<DuplicateSet>): seq<FileInfo>
    decreases |sets|
  {
    if sets == [] then [] else AllFiles(sets[..|sets| - 1]) + sets[|sets| - 1].files
  }

  /** Once a prefix of a length group fails to hash, the group fails with the
      same error: the files after it are never opened. */
  lemma HashAllFailurePrefix(fs: seq<FileInfo>, i: nat, sha: seq<byte> -> Digest)
    requires i <= |fs| && HashAll(fs[..i], sha).Failure?
    ensures HashAll(fs, sha) == HashAll(fs[..i], sha)
  {
    var k := FirstUnreadable(fs[..i]);
    assert forall j | 0 <= j < i :: fs[..i][j] == fs[j];
    FirstUnreadableUnique(fs, k);
  }

  /** Once the first length groups fail, Check fails with the same error. */
  lemma {:induction false} CheckGroupsFailurePrefix(gs: seq<Grouping<nat, FileInfo>>, i: nat, sha: seq<byte> -> Digest)
    requires i <= |gs| && CheckGroups(gs[..i], sha).Failure?
    ensures CheckGroups(gs, sha) == CheckGroups(gs[..i], sha)
    decreases |gs|
  {
    if i < |gs| {
      var n := |gs| - 1;
      assert gs[..n][..i] == gs[..i];
      CheckGroupsFailurePrefix(gs[..n], i, sha);
    } else {
      assert gs[..i] == gs;
    }
  }

  /** The files hashed for the first groups come first in the hash order. */
  lemma {:induction false} HashOrderPrefix(gs: seq<Grouping<nat, FileInfo>>, i: nat)
    requires i <= |gs|
    ensures HashOrderOf(gs[..i]) <= HashOrderOf(gs)
    decreases |gs|
  {
    if i < |gs| {
      var n := |gs| - 1;
      assert gs[..n][..i] == gs[..i];
      HashOrderPrefix(gs[..n], i);
    } else {
      assert gs[..i] == gs;
    }
  }

  /** One more length group: CheckGroups and the hash order of the first
      `i + 1` groups in terms of those of the first `i`. */
  lemma CheckGroupsStep(gs: seq<Grouping<nat, FileInfo>>, i: nat, sha: seq<byte> -> Digest)
    requires i < |gs|
    ensures CheckGroups(gs[..i + 1], sha) ==
      match CheckGroups(gs[..i], sha)
      case Failure(e) => Failure(e)
      case Success(acc) =>
        match CheckGroup(gs[i].elements, sha)
        case Failure(e) => Failure(e)
        case Success(sets) => Success(acc + sets)
    ensures HashOrderOf(gs[..i + 1]) == HashOrderOf(gs[..i]) + if |gs[i].elements| <= 1 then [] else gs[i].elements
  {
    assert gs[..i + 1][..i] == gs[..i];
  }

  /** A turn of the outer foreach that succeeds: the sets and the files
      hashed grow by that group's. */
  lemma CheckGroupsTurnSucceeds(gs: seq<Grouping<nat, FileInfo>>, i: nat, sha: seq<byte> -> Digest,
                                acc: seq<DuplicateSet>, hashed: seq<FileInfo>, tried: nat)
    requires i < |gs| && CheckGroup(gs[i].elements, sha).Success?
    requires CheckGroups(gs[..i], sha) == Success(acc) && hashed == HashOrderOf(gs[..i])
    requires tried == if |gs[i].elements| <= 1 then 0 else |gs[i].elements|
    ensures var els := gs[i].elements;
      && CheckGroups(gs[..i + 1], sha) == Success(acc + CheckGroup(els, sha).value)
      && tried <= |els|
      && hashed + els[..tried] == HashOrderOf(gs[..i + 1])
  {
    var els := gs[i].elements;
    CheckGroupsStep(gs, i, sha);
    assert els[..tried] == if |els| <= 1 then [] else els;
  }
}
