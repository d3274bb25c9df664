/**
  The Checker and HaFile classes. HaFile holds a file, its length and the
  digest ComputeHash stores into it; Checker holds the cleaned root paths and
  the result of the last successful Check.

  Check takes the files the directory enumeration listed (what
  Dirs.SelectMany(GetFiles(SearchPattern, ...)) returns) and the digest
  function as parameters.
*/
module DuplicateChecker {
  import opened Wrappers
  import opened Files
  import opened Linq
  import opened PathCleaning
  import opened Comparers
  import opened Pipeline
  import opened CheckProperties

  class HaFile {
    const fileInfo: FileInfo
    const length: nat
    var hash: Option<Digest>
    /** How many times ComputeHash has been called, that is, how many times
        the file has been opened (or an attempt made to open it). */
    ghost var hashCalls: nat

    constructor(file: FileInfo)
      ensures fileInfo == file && length == file.length && hash == None
      ensures hashCalls == 0
    {
      fileInfo := file;
      length := file.length;
      hash := None;
      hashCalls := 0;
    }

    /** Opens the file and stores the digest of its bytes in `hash`; when
        the file cannot be opened it fails and `hash` keeps its value. */
    method ComputeHash(sha: seq<byte> -> Digest) returns (r: Result<Digest, CheckError>)
      modifies this
      ensures r == ReadAndHash(fileInfo, sha)
      ensures hash == if r.Success? then Some(r.value) else old(hash)
      ensures hashCalls == old(hashCalls) + 1
    {
      hashCalls := hashCalls + 1;
      match fileInfo.content {
        case None =>
          r := Failure(IOReadError(fileInfo.fullName));
        case Some(bytes) =>
          var digest := sha(bytes);
          hash := Some(digest);
          r := Success(digest);
      }
    }
  }

  /** The key of the first GroupBy. */
  function HaFileLength(h: HaFile): nat
  {
    h.length
  }

  function HaFileInfo(h: HaFile): FileInfo
  {
    h.fileInfo
  }

  /** The `foreach (var f in group) f.ComputeHash();` loop: hashes the
      members in order and stops at the first that cannot be opened, which
      is the `tried`-th file. ComputeHash is called once on each of the
      first `tried` members and on no other HaFile. */
  method ComputeHashes(group: seq<HaFile>, sha: seq<byte> -> Digest) returns (failure: Option<CheckError>, ghost tried: nat)
    modifies set h | h in group
    ensures var els := Select(group, HaFileInfo);
      && (failure.Some? <==> FirstUnreadable(els) < |els|)
      && (failure.Some? ==> tried == FirstUnreadable(els) + 1 && failure.value == IOReadError(els[FirstUnreadable(els)].fullName))
      && (failure.None? ==> tried == |group| && forall i | 0 <= i < |group| ::
            group[i].fileInfo.content.Some? && group[i].hash == Some(sha(group[i].fileInfo.content.value)))
    ensures forall h | h in group :: h.hashCalls == old(h.hashCalls) + multiset(group[..tried])[h]
  {
    ghost var els := Select(group, HaFileInfo);
    assert forall i | 0 <= i < |group| :: els[i] == group[i].fileInfo;
    for k := 0 to |group|
      invariant forall i | 0 <= i < k :: els[i].content.Some? && group[i].hash == Some(sha(els[i].content.value))
      invariant forall h | h in group :: h.hashCalls == old(h.hashCalls) + multiset(group[..k])[h]
    {
      var h := group[k];
      var res := h.ComputeHash(sha);
      assert group[..k + 1] == group[..k] + [h];
      if res.Success? {
        forall i | 0 <= i < k + 1 ensures els[i].content.Some? && group[i].hash == Some(sha(els[i].content.value)) {
          if group[i] == h {
            assert els[i] == els[k];
          }
        }
      } else {
        FirstUnreadableUnique(els, k);
        return Some(res.error), k + 1;
      }
    }
    FirstUnreadableUnique(els, |group|);
    assert group[..|group|] == group;
    return None, |group|;
  }

  /** The `foreach (var f in groupByHash)` loop: a DuplicateSet for every
      digest group of two or more, keyed by `f.Key ?? []`. */
  method CollectSets(groupByHash: seq<Grouping<Option<Digest>, HashedFile>>) returns (sets: seq<DuplicateSet>)
    ensures sets == Assemble(groupByHash)
  {
    sets := [];
    for m := 0 to |groupByHash|
      invariant sets == Assemble(groupByHash[..m])
    {
      var f := groupByHash[m];
      assert groupByHash[..m + 1][..m] == groupByHash[..m];
      if |f.elements| <= 1 {
        continue;
      }
      sets := sets + [DuplicateSet(KeyOrEmpty(f.key), Select(f.elements, FileOf))];
    }
    assert groupByHash[..|groupByHash|] == groupByHash;
  }

  /** `.Select(f => new HaFile(f))`: a new HaFile for every file, in order,
      none of them hashed yet. */
  method MakeHaFiles(files: seq<FileInfo>) returns (haFiles: seq<HaFile>)
    ensures |haFiles| == |files|
    ensures forall m | 0 <= m < |files| ::
      && fresh(haFiles[m]) && haFiles[m].fileInfo == files[m] && haFiles[m].length == files[m].length
      && haFiles[m].hash == None && haFiles[m].hashCalls == 0
  {
    haFiles := [];
    for j := 0 to |files|
      invariant |haFiles| == j
      invariant forall m | 0 <= m < j ::
        && fresh(haFiles[m]) && haFiles[m].fileInfo == files[m] && haFiles[m].length == files[m].length
        && haFiles[m].hash == None && haFiles[m].hashCalls == 0
    {
      var h := new HaFile(files[j]);
      haFiles := haFiles + [h];
    }
  }

  /** One turn of the outer foreach over a length group: skip a group of
      one, otherwise hash the members, group them by digest and collect the
      sets. ComputeHash is called once on each of the first `tried`
      members, none for a group of one, and on no other HaFile. */
  method CheckLengthGroup(group: seq<HaFile>, sha: seq<byte> -> Digest) returns (r: Result<seq<DuplicateSet>, CheckError>, ghost tried: nat)
    modifies set h | h in group
    ensures var els := Select(group, HaFileInfo);
      && r == CheckGroup(els, sha)
      && tried == if |els| <= 1 then 0 else if r.Success? then |els| else FirstUnreadable(els) + 1
    ensures forall h | h in group :: h.hashCalls == old(h.hashCalls) + multiset(group[..tried])[h]
  {
    if |group| <= 1 {
      return Success([]), 0;
    }
    ghost var els := Select(group, HaFileInfo);
    var failure;
    failure, tried := ComputeHashes(group, sha);
    if failure.Some? {
      return Failure(failure.value), tried;
    }
    var pairs := seq(|group|, i requires 0 <= i < |group| reads group => HashedFile(group[i].fileInfo, group[i].hash));
    assert pairs == HashAll(els, sha).value;
    var groupByHash := GroupBy(pairs, HashKey, HashEquals);
    var sets := CollectSets(groupByHash);
    return Success(sets), tried;
  }

  /** Grouping the HaFiles by Length groups their files as grouping the
      files by length does, and every member is one of the HaFiles. */
  lemma HaFileGroups(haFiles: seq<HaFile>, files: seq<FileInfo>)
    requires |haFiles| == |files|
    requires forall m | 0 <= m < |files| :: haFiles[m].fileInfo == files[m] && haFiles[m].length == files[m].length
    ensures SelectGroups(GroupBy(haFiles, HaFileLength, SameLength), HaFileInfo) == GroupByLength(files)
    ensures MembersFrom(GroupBy(haFiles, HaFileLength, SameLength), haFiles)
  {
    forall m | 0 <= m < |files| ensures Select(haFiles, HaFileInfo)[m] == files[m] {
      assert Select(haFiles, HaFileInfo)[m] == HaFileInfo(haFiles[m]);
    }
    assert Select(haFiles, HaFileInfo) == files;
    assert forall m | 0 <= m < |haFiles| :: HaFileLength(haFiles[m]) == LengthOf(HaFileInfo(haFiles[m]));
    GroupBySelect(haFiles, HaFileInfo, HaFileLength, LengthOf, SameLength);
    GroupByMembers(haFiles, HaFileLength, SameLength);
  }

  /** The HaFiles opened after one more turn, in terms of their files. */
  lemma HashLogStep(hashLog: seq<HaFile>, group: seq<HaFile>, tried: nat)
    requires tried <= |group|
    ensures Select(hashLog + group[..tried], HaFileInfo) == Select(hashLog, HaFileInfo) + Select(group, HaFileInfo)[..tried]
  {
    SelectAppend(hashLog, group[..tried], HaFileInfo);
  }

  /** The file of a logged HaFile is among the logged files. */
  lemma HashLogInfo(hashLog: seq<HaFile>, h: HaFile)
    requires h in hashLog
    ensures h.fileInfo in Select(hashLog, HaFileInfo)
  {
    var j :| 0 <= j < |hashLog| && hashLog[j] == h;
    assert Select(hashLog, HaFileInfo)[j] == HaFileInfo(hashLog[j]);
  }

  /** A HaFile whose file is not among those of a log prefix of `order` is
      not in the log. */
  lemma NotLogged(hashLog: seq<HaFile>, order: seq<FileInfo>, h: HaFile)
    requires Select(hashLog, HaFileInfo) <= order && h.fileInfo !in order
    ensures multiset(hashLog)[h] == 0
  {
    if h in hashLog {
      HashLogInfo(hashLog, h);
    }
  }

  /** The outer `foreach (var group in groupByLength)`: every length group
      in turn, stopping at the first error. `hashLog` lists the HaFiles
      ComputeHash is called on, in call order: each HaFile's calls are its
      occurrences there, and their files are the hash order, up to and
      including the first unreadable file when the check fails. */
  method CheckLengthGroups(groupByLength: seq<Grouping<nat, HaFile>>, ghost gs: seq<Grouping<nat, FileInfo>>,
                           ghost haFiles: seq<HaFile>, sha: seq<byte> -> Digest)
    returns (r: Result<seq<DuplicateSet>, CheckError>, ghost hashLog: seq<HaFile>)
    requires |gs| == |groupByLength|
    requires forall i | 0 <= i < |gs| :: gs[i].elements == Select(groupByLength[i].elements, HaFileInfo)
    requires MembersFrom(groupByLength, haFiles)
    modifies set h | h in haFiles
    ensures r == CheckGroups(gs, sha)
    ensures forall h | h in haFiles :: h.hashCalls == old(h.hashCalls) + multiset(hashLog)[h]
    ensures forall h | h in hashLog :: h in haFiles
    ensures r.Success? ==> Select(hashLog, HaFileInfo) == HashOrderOf(gs)
    ensures r.Failure? ==> var ho := HashOrderOf(gs);
      FirstUnreadable(ho) < |ho| && Select(hashLog, HaFileInfo) == ho[..FirstUnreadable(ho) + 1]
  {
    var result: seq<DuplicateSet> := [];
    ghost var hashed: seq<FileInfo> := [];
    hashLog := [];
    for gi := 0 to |groupByLength|
      invariant CheckGroups(gs[..gi], sha) == Success(result)
      invariant hashed == HashOrderOf(gs[..gi]) == Select(hashLog, HaFileInfo)
      invariant forall h | h in haFiles :: h.hashCalls == old(h.hashCalls) + multiset(hashLog)[h]
      invariant forall h | h in hashLog :: h in haFiles
    {
      var group := groupByLength[gi].elements;
      assert forall h | h in group :: h in haFiles;
      var sets, tried := CheckLengthGroup(group, sha);
      ghost var els := gs[gi].elements;
      if sets.Failure? {
        CheckGroupsTurnFails(gs, gi, sha, result, hashed, tried);
      } else {
        CheckGroupsTurnSucceeds(gs, gi, sha, result, hashed, tried);
      }
      HashLogStep(hashLog, group, tried);
      forall h | h in haFiles && h !in group ensures multiset(group[..tried])[h] == 0 {
        assert h !in group[..tried];
      }
      hashed := hashed + els[..tried];
      hashLog := hashLog + group[..tried];
      if sets.Failure? {
        return Failure(sets.error), hashLog;
      }
      result := result + sets.value;
    }
    assert gs[..|groupByLength|] == gs;
    return Success(result), hashLog;
  }

  class Checker {
    const Paths: seq<string>
    const Recursive: bool
    const SearchPattern: string
    var Duplicates: seq<DuplicateSet>

    /** Keeps the trimmed paths that are not blank, in order. */
    constructor(paths: seq<string>, recursive: bool := true, searchPattern: string := "")
      ensures Paths == CleanPaths(paths)
      ensures Recursive == recursive && SearchPattern == searchPattern
      ensures Duplicates == []
    {
      SearchPattern := searchPattern;
      Recursive := recursive;
      Paths := CleanPaths(paths);
      Duplicates := [];
    }

    /** Finds the duplicate sets among `listed`. On success the result is
        also stored in Duplicates; when a file cannot be opened the error
        escapes and Duplicates is left as it was. `haFiles` are the HaFiles
        Check creates, one per enumerated file, and `hashLog` lists those
        ComputeHash is called on, in call order: the files of the hash
        order, up to the first unreadable one on failure. A file whose
        length no other enumerated file shares is never opened. */
    method Check(listed: seq<FileInfo>, sha: seq<byte> -> Digest)
      returns (r: Result<seq<DuplicateSet>, CheckError>, ghost haFiles: seq<HaFile>, ghost hashLog: seq<HaFile>)
      modifies this
      ensures r == CheckSpec(listed, sha)
      ensures |haFiles| == |Enumerate(listed)|
      ensures forall m | 0 <= m < |haFiles| :: fresh(haFiles[m]) && haFiles[m].fileInfo == Enumerate(listed)[m]
      ensures forall h | h in haFiles :: h.hashCalls == multiset(hashLog)[h]
      ensures forall h | h in hashLog :: h in haFiles
      ensures r.Success? ==> Select(hashLog, HaFileInfo) == HashOrder(listed) && Duplicates == r.value
      ensures r.Failure? ==> var ho := HashOrder(listed);
        && FirstUnreadable(ho) < |ho| && Select(hashLog, HaFileInfo) == ho[..FirstUnreadable(ho) + 1]
        && Duplicates == old(Duplicates)
      ensures forall h | h in haFiles && h.fileInfo !in HashOrder(listed) :: h.hashCalls == 0
    {
      var files := Enumerate(listed);
      var hfs := MakeHaFiles(files);
      var groupByLength := GroupBy(hfs, HaFileLength, SameLength);
      HaFileGroups(hfs, files);
      haFiles := hfs;
      ghost var gs := GroupByLength(files);
      assert forall i | 0 <= i < |gs| :: gs[i] == SelectGroups(groupByLength, HaFileInfo)[i];
      r, hashLog := CheckLengthGroups(groupByLength, gs, haFiles, sha);
      ghost var order := HashOrder(listed);
      assert Select(hashLog, HaFileInfo) <= order;
      forall h | h in haFiles && h.fileInfo !in order ensures h.hashCalls == 0 {
        NotLogged(hashLog, order, h);
      }
      if r.Success? {
        Duplicates := r.value;
      }
    }
  }
}
