/**
  What the duplicate check promises, proved about the Pipeline functions:
  every reported set is a real duplicate set (two or more readable files of
  one length whose contents share the reported digest), no file is reported
  twice, every pair of same-length files with equal digests is reported
  together, only files that share their length with another file are ever
  opened, and the check fails exactly when one of those cannot be opened,
  naming the first.
*/
module CheckProperties {
  import opened Wrappers
  import opened Files
  import opened Linq
  import opened Comparers
  import opened Pipeline

  // ---------------------------------------------------------------------
  // The enumerated files

  /** Every file the check works on was listed and is not a system file. */
  lemma EnumerateMembers(listed: seq<FileInfo>)
    ensures forall f | f in Enumerate(listed) :: f in listed && NonSystem(f)
  {
    var w := Where(listed, NonSystem);
    WhereMembers(listed, NonSystem);
    DistinctIsSubsequence(w, SameFile);
    SubsequenceMultiset(Distinct(w, SameFile), w);
    forall f | f in Enumerate(listed) ensures f in w {
      assert f in multiset(Distinct(w, SameFile));
    }
  }

  /** Every listed non-system file is represented by one with the same path
      ignoring case. */
  lemma EnumerateCovers(listed: seq<FileInfo>)
    ensures forall f | f in listed && NonSystem(f) :: Seen(Enumerate(listed), f, SameFile)
  {
    var w := Where(listed, NonSystem);
    WhereMembers(listed, NonSystem);
    forall i | 0 <= i < |w| ensures SameFile(w[i], w[i]) {
      SameFileIsEquivalence(w[i], w[i], w[i]);
    }
    DistinctCovers(w, SameFile);
    forall f | f in listed && NonSystem(f) ensures Seen(Enumerate(listed), f, SameFile) {
      var i :| 0 <= i < |w| && w[i] == f;
    }
  }

  /** No two enumerated files have the same path ignoring case, so in
      particular no file is enumerated twice. */
  lemma EnumerateDistinct(listed: seq<FileInfo>)
    ensures PairwiseUnequal(Enumerate(listed), SameFile)
    ensures forall i, j | 0 <= i < j < |Enumerate(listed)| :: Enumerate(listed)[i] != Enumerate(listed)[j]
  {
    var e := Enumerate(listed);
    DistinctPairwise(Where(listed, NonSystem), SameFile);
    forall i, j | 0 <= i < j < |e| ensures e[i] != e[j] {
      SameFileIsEquivalence(e[i], e[i], e[i]);
    }
  }

  // ---------------------------------------------------------------------
  // Grouping by length and the hash order

  /** One length group per distinct length, holding exactly the files of that
      length in enumeration order. */
  lemma LengthGroupsExact(files: seq<FileInfo>)
    ensures ExactGroups(GroupByLength(files), files, LengthOf)
  {
    GroupByExact(files, LengthOf, SameLength);
  }

  /** A file is hashed exactly when it is a member of a length group of two or
      more. */
  lemma {:induction false} HashOrderMembers(gs: seq<Grouping<nat, FileInfo>>, f: FileInfo)
    ensures f in HashOrderOf(gs) <==> exists i | 0 <= i < |gs| :: |gs[i].elements| >= 2 && f in gs[i].elements
  {
    if f in HashOrderOf(gs) {
      var i := HashOrderGroup(gs, f);
    }
    if exists i | 0 <= i < |gs| :: |gs[i].elements| >= 2 && f in gs[i].elements {
      var i :| 0 <= i < |gs| && |gs[i].elements| >= 2 && f in gs[i].elements;
      GroupInHashOrder(gs, i, f);
    }
  }

  /** A hashed file comes from a length group of two or more... */
  lemma {:induction false} HashOrderGroup(gs: seq<Grouping<nat, FileInfo>>, f: FileInfo) returns (i: nat)
    requires f in HashOrderOf(gs)
    ensures i < |gs| && |gs[i].elements| >= 2 && f in gs[i].elements
    decreases |gs|
  {
    var n := |gs| - 1;
    if f in HashOrderOf(gs[..n]) {
      i := HashOrderGroup(gs[..n], f);
      assert gs[..n][i] == gs[i];
    } else {
      i := n;
    }
  }

  /** ...and every member of such a group is hashed. */
  lemma {:induction false} GroupInHashOrder(gs: seq<Grouping<nat, FileInfo>>, i: nat, f: FileInfo)
    requires i < |gs| && |gs[i].elements| >= 2 && f in gs[i].elements
    ensures f in HashOrderOf(gs)
    decreases |gs|
  {
    var n := |gs| - 1;
    if i < n {
      assert gs[..n][i] == gs[i];
      GroupInHashOrder(gs[..n], i, f);
    }
  }

  /** ComputeHash is called on a file exactly when another enumerated file
      has the same length. */
  lemma HashOrderExact(listed: seq<FileInfo>, f: FileInfo)
    ensures f in HashOrder(listed) <==>
      f in Enumerate(listed) && exists g | g in Enumerate(listed) :: g != f && g.length == f.length
  {
    var e := Enumerate(listed);
    var gs := GroupByLength(e);
    LengthGroupsExact(e);
    HashOrderMembers(gs, f);
    if f in HashOrder(listed) {
      EnumerateDistinct(listed);
      var i :| 0 <= i < |gs| && |gs[i].elements| >= 2 && f in gs[i].elements;
      var g := GroupPartner(gs, e, LengthOf, i, f);
      HavingMembers(e, LengthOf, gs[i].key);
    }
    if f in e && exists g | g in e :: g != f && g.length == f.length {
      var g :| g in e && g != f && g.length == f.length;
      var i := SharedKeyGroup(gs, e, LengthOf, f, g);
    }
  }

  // ---------------------------------------------------------------------
  // Failure

  /** The first unreadable file of a concatenation. */
  lemma FirstUnreadableAppend(a: seq<FileInfo>, b: seq<FileInfo>)
    ensures FirstUnreadable(a + b) ==
      if FirstUnreadable(a) < |a| then FirstUnreadable(a) else |a| + FirstUnreadable(b)
  {
    var ab := a + b;
    if FirstUnreadable(a) < |a| {
      FirstUnreadableUnique(ab, FirstUnreadable(a));
    } else {
      var k := |a| + FirstUnreadable(b);
      forall j | 0 <= j < k ensures ab[j].content.Some? {
        if j >= |a| {
          assert ab[j] == b[j - |a|];
        }
      }
      FirstUnreadableUnique(ab, k);
    }
  }

  /** The check over some length groups fails exactly when a file in their
      hash order cannot be opened, and the error names the first such file. */
  lemma {:induction false} CheckGroupsFailure(gs: seq<Grouping<nat, FileInfo>>, sha: seq<byte> -> Digest)
    ensures var h := HashOrderOf(gs);
      && (CheckGroups(gs, sha).Failure? <==> FirstUnreadable(h) < |h|)
      && (CheckGroups(gs, sha).Failure? ==> CheckGroups(gs, sha).error == IOReadError(h[FirstUnreadable(h)].fullName))
    decreases |gs|
  {
    if gs != [] {
      var n := |gs| - 1;
      var g := gs[n];
      var h' := HashOrderOf(gs[..n]);
      CheckGroupsFailure(gs[..n], sha);
      if |g.elements| <= 1 {
        assert HashOrderOf(gs) == h' + [];
        FirstUnreadableAppend(h', []);
      } else {
        assert HashOrderOf(gs) == h' + g.elements;
        FirstUnreadableAppend(h', g.elements);
      }
    }
  }

  /** Past readable files `p`, the first unreadable file of `p + els + rest`
      is that of `els`, and the files up to it are `p` and those of `els`. */
  lemma FirstUnreadableAfter(p: seq<FileInfo>, els: seq<FileInfo>, rest: seq<FileInfo>)
    requires FirstUnreadable(p) == |p| && FirstUnreadable(els) < |els|
    ensures var h := p + els + rest;
      && FirstUnreadable(h) == |p| + FirstUnreadable(els)
      && h[..FirstUnreadable(h) + 1] == p + els[..FirstUnreadable(els) + 1]
  {
    var k := FirstUnreadable(els);
    var h := p + els + rest;
    forall j | 0 <= j < |p| + k ensures h[j].content.Some? {
      if j >= |p| {
        assert h[j] == els[j - |p|];
      }
    }
    assert h[|p| + k] == els[k];
    FirstUnreadableUnique(h, |p| + k);
    assert h[..|p| + k + 1] == p + els[..k + 1];
  }

  /** When the check over some length groups succeeds, every file in their
      hash order can be opened. */
  lemma SucceedsAllReadable(gs: seq<Grouping<nat, FileInfo>>, sha: seq<byte> -> Digest)
    requires CheckGroups(gs, sha).Success?
    ensures FirstUnreadable(HashOrderOf(gs)) == |HashOrderOf(gs)|
  {
    CheckGroupsFailure(gs, sha);
  }

  /** The hash order around a length group of two or more: the groups
      before it, its members, then the rest. */
  lemma HashOrderSplit(gs: seq<Grouping<nat, FileInfo>>, i: nat)
    requires i < |gs| && 1 < |gs[i].elements|
    ensures var p := HashOrderOf(gs[..i]); var h := HashOrderOf(gs);
      |p| + |gs[i].elements| <= |h| && h == p + gs[i].elements + h[|p| + |gs[i].elements|..]
  {
    var h := HashOrderOf(gs);
    var q := HashOrderOf(gs[..i + 1]);
    assert gs[..i + 1][..i] == gs[..i];
    assert q == HashOrderOf(gs[..i]) + gs[i].elements;
    HashOrderPrefix(gs, i + 1);
    assert h == q + h[|q|..];
  }

  /** The files tried by a failing turn after `i` turns that succeeded are
      the hash order up to and including its first unreadable file. */
  lemma FailingTurnTried(gs: seq<Grouping<nat, FileInfo>>, i: nat, sha: seq<byte> -> Digest, tried: nat)
    requires i < |gs| && 1 < |gs[i].elements| && FirstUnreadable(gs[i].elements) < |gs[i].elements|
    requires CheckGroups(gs[..i], sha).Success?
    requires tried == FirstUnreadable(gs[i].elements) + 1
    ensures var h := HashOrderOf(gs);
      && FirstUnreadable(h) < |h|
      && HashOrderOf(gs[..i]) + gs[i].elements[..tried] == h[..FirstUnreadable(h) + 1]
  {
    var p := HashOrderOf(gs[..i]);
    var els := gs[i].elements;
    var h := HashOrderOf(gs);
    HashOrderSplit(gs, i);
    SucceedsAllReadable(gs[..i], sha);
    FirstUnreadableAfter(p, els, h[|p| + |els|..]);
  }

  /** A turn of the outer foreach that fails, after `i` turns that
      succeeded: its error is that of the whole check, and the files tried
      so far are exactly the hash order up to and including its first
      unreadable file. */
  lemma CheckGroupsTurnFails(gs: seq<Grouping<nat, FileInfo>>, i: nat, sha: seq<byte> -> Digest,
                             acc: seq<DuplicateSet>, hashed: seq<FileInfo>, tried: nat)
    requires i < |gs| && CheckGroup(gs[i].elements, sha).Failure?
    requires CheckGroups(gs[..i], sha) == Success(acc) && hashed == HashOrderOf(gs[..i])
    requires tried == FirstUnreadable(gs[i].elements) + 1
    ensures var els := gs[i].elements; var h := HashOrderOf(gs);
      && CheckGroups(gs, sha) == Failure(CheckGroup(els, sha).error)
      && tried <= |els|
      && FirstUnreadable(h) < |h|
      && hashed + els[..tried] == h[..FirstUnreadable(h) + 1]
  {
    CheckGroupsStep(gs, i, sha);
    CheckGroupsFailurePrefix(gs, i + 1, sha);
    FailingTurnTried(gs, i, sha, tried);
  }

  /** Check fails exactly when a file it must hash cannot be opened, and it
      fails on the first of them in hashing order. */
  lemma CheckFailsOnFirstUnreadable(listed: seq<FileInfo>, sha: seq<byte> -> Digest)
    ensures var h := HashOrder(listed);
      && (CheckSpec(listed, sha).Failure? <==> FirstUnreadable(h) < |h|)
      && (CheckSpec(listed, sha).Failure? ==> CheckSpec(listed, sha).error == IOReadError(h[FirstUnreadable(h)].fullName))
  {
    CheckGroupsFailure(GroupByLength(Enumerate(listed)), sha);
  }

  // ---------------------------------------------------------------------
  // Grouping by digest

  /** Within one length group, each digest group holds files whose contents
      all digest to the group's key; in particular the key is never null. */
  ghost predicate GoodHashGroup(g: Grouping<Option<Digest>, HashedFile>, pool: seq<FileInfo>, sha: seq<byte> -> Digest, len: nat)
  {
    forall x | x in g.elements ::
      x.file in pool && x.file.length == len && x.file.content.Some? && g.key == Some(sha(x.file.content.value))
  }

  /** After a successful hashing of a length group, the digest groups are
      exactly the classes of equal digests. */
  lemma HashGroupsExact(els: seq<FileInfo>, sha: seq<byte> -> Digest, hs: seq<HashedFile>)
    requires HashAll(els, sha) == Success(hs)
    ensures ExactGroups(HashGroups(hs), hs, HashKey)
  {
    forall i, j | 0 <= i < |hs| && 0 <= j < |hs|
      ensures HashEquals(HashKey(hs[i]), HashKey(hs[j])) == (HashKey(hs[i]) == HashKey(hs[j]))
    {
      HashEqualsIsPresentAndEqual(hs[i].hash, hs[j].hash);
    }
    GroupByExact(hs, HashKey, HashEquals);
  }

  lemma HashGroupsGood(els: seq<FileInfo>, sha: seq<byte> -> Digest, hs: seq<HashedFile>, len: nat)
    requires HashAll(els, sha) == Success(hs)
    requires forall f | f in els :: f.length == len
    ensures forall k | 0 <= k < |HashGroups(hs)| :: GoodHashGroup(HashGroups(hs)[k], els, sha, len)
  {
    var hgs := HashGroups(hs);
    HashGroupsExact(els, sha, hs);
    forall k | 0 <= k < |hgs| ensures GoodHashGroup(hgs[k], els, sha, len) {
      HavingMembers(hs, HashKey, hgs[k].key);
      forall x | x in hgs[k].elements
        ensures x.file in els && x.file.length == len && x.file.content.Some? && hgs[k].key == Some(sha(x.file.content.value))
      {
        var p :| 0 <= p < |hs| && hs[p] == x;
      }
    }
  }

  /** The `?? []` fallback of DuplicateSet is never taken: every digest
      group's key is a digest. */
  lemma HashKeysPresent(els: seq<FileInfo>, sha: seq<byte> -> Digest, hs: seq<HashedFile>)
    requires HashAll(els, sha) == Success(hs)
    ensures forall k | 0 <= k < |HashGroups(hs)| :: HashGroups(hs)[k].key.Some?
  {
    var hgs := HashGroups(hs);
    HashGroupsExact(els, sha, hs);
    forall k | 0 <= k < |hgs| ensures hgs[k].key.Some? {
      var p :| 0 <= p < |hs| && HashKey(hs[p]) == hgs[k].key;
    }
  }

  // ---------------------------------------------------------------------
  // Soundness

  /** A reported set: two or more files, all in `pool`, of one length, all
      readable, each with contents whose digest is the set's digest. */
  ghost predicate SoundSet(s: DuplicateSet, sha: seq<byte> -> Digest, pool: seq<FileInfo>)
  {
    && |s.files| >= 2
    && forall i | 0 <= i < |s.files| ::
         && s.files[i] in pool
         && s.files[i].length == s.files[0].length
         && s.files[i].content.Some?
         && sha(s.files[i].content.value) == s.hash
  }

  lemma {:induction false} AssembleSound(hgs: seq<Grouping<Option<Digest>, HashedFile>>, pool: seq<FileInfo>, sha: seq<byte> -> Digest, len: nat)
    requires forall k | 0 <= k < |hgs| :: GoodHashGroup(hgs[k], pool, sha, len)
    ensures forall s | s in Assemble(hgs) :: SoundSet(s, sha, pool)
    decreases |hgs|
  {
    if hgs != [] {
      var n := |hgs| - 1;
      var g := hgs[n];
      AssembleSound(hgs[..n], pool, sha, len);
      if |g.elements| >= 2 {
        assert GoodHashGroup(g, pool, sha, len);
        var s := DuplicateSet(KeyOrEmpty(g.key), Select(g.elements, FileOf));
        forall i | 0 <= i < |s.files|
          ensures s.files[i] in pool && s.files[i].length == s.files[0].length
          ensures s.files[i].content.Some? && sha(s.files[i].content.value) == s.hash
        {
          assert g.elements[i] in g.elements && g.elements[0] in g.elements;
          assert |s.files| == |g.elements|;
          assert s.files[i] == FileOf(g.elements[i]) && s.files[0] == FileOf(g.elements[0]);
        }
        assert SoundSet(s, sha, pool);
      }
    }
  }

  /** The sets one length group yields are sound with respect to its files. */
  lemma CheckGroupSound(els: seq<FileInfo>, sha: seq<byte> -> Digest, len: nat)
    requires forall f | f in els :: f.length == len
    ensures CheckGroup(els, sha).Success? ==> forall s | s in CheckGroup(els, sha).value :: SoundSet(s, sha, els)
  {
    if |els| >= 2 && CheckGroup(els, sha).Success? {
      var hs := HashAll(els, sha).value;
      HashGroupsGood(els, sha, hs, len);
      AssembleSound(HashGroups(hs), els, sha, len);
    }
  }

  /** Sets built from length groups, each group holding files of its key's
      length, are sound with respect to the hash order. */
  lemma {:induction false} CheckGroupsSound(gs: seq<Grouping<nat, FileInfo>>, sha: seq<byte> -> Digest)
    requires forall i, f | 0 <= i < |gs| && f in gs[i].elements :: f.length == gs[i].key
    ensures CheckGroups(gs, sha).Success? ==>
      forall s | s in CheckGroups(gs, sha).value :: SoundSet(s, sha, HashOrderOf(gs))
    decreases |gs|
  {
    if gs != [] && CheckGroups(gs, sha).Success? {
      var n := |gs| - 1;
      var g := gs[n];
      var h := HashOrderOf(gs);
      CheckGroupsSound(gs[..n], sha);
      var acc := CheckGroups(gs[..n], sha).value;
      var sets := CheckGroup(g.elements, sha).value;
      assert CheckGroups(gs, sha).value == acc + sets;
      forall s | s in acc ensures SoundSet(s, sha, h) {
        assert SoundSet(s, sha, HashOrderOf(gs[..n]));
      }
      if |g.elements| >= 2 {
        CheckGroupSound(g.elements, sha, g.key);
        assert h == HashOrderOf(gs[..n]) + g.elements;
        forall s | s in sets ensures SoundSet(s, sha, h) {
          assert SoundSet(s, sha, g.elements);
        }
      }
    }
  }

  /** Every set Check returns holds two or more readable files of one length
      whose contents all have the set's digest, and each of them is a file
      Check hashed. */
  lemma CheckSound(listed: seq<FileInfo>, sha: seq<byte> -> Digest)
    ensures CheckSpec(listed, sha).Success? ==>
      forall s | s in CheckSpec(listed, sha).value :: SoundSet(s, sha, HashOrder(listed))
  {
    var e := Enumerate(listed);
    var gs := GroupByLength(e);
    LengthGroupsExact(e);
    forall i, f | 0 <= i < |gs| && f in gs[i].elements ensures f.length == gs[i].key {
      HavingMembers(e, LengthOf, gs[i].key);
    }
    CheckGroupsSound(gs, sha);
  }

  /** A file whose length no other enumerated file shares is never opened
      and is in no set. */
  lemma UniqueLengthNeverHashed(listed: seq<FileInfo>, sha: seq<byte> -> Digest, f: FileInfo)
    requires forall g | g in Enumerate(listed) :: g != f ==> g.length != f.length
    ensures f !in HashOrder(listed)
    ensures CheckSpec(listed, sha).Success? ==> forall s | s in CheckSpec(listed, sha).value :: f !in s.files
  {
    HashOrderExact(listed, f);
    CheckSound(listed, sha);
  }

  /** With no two enumerated files of one length nothing is hashed and the
      result is empty. */
  lemma {:induction false} NoSharedLengthNoSets(listed: seq<FileInfo>, sha: seq<byte> -> Digest)
    requires forall i, j | 0 <= i < j < |Enumerate(listed)| :: Enumerate(listed)[i].length != Enumerate(listed)[j].length
    ensures HashOrder(listed) == []
    ensures CheckSpec(listed, sha) == Success([])
  {
    var e := Enumerate(listed);
    var gs := GroupByLength(e);
    LengthGroupsExact(e);
    forall i | 0 <= i < |gs| ensures |gs[i].elements| <= 1 {
      HavingTwo(e, LengthOf, gs[i].key);
    }
    SmallGroupsNoSets(gs, sha);
  }

  lemma {:induction false} SmallGroupsNoSets(gs: seq<Grouping<nat, FileInfo>>, sha: seq<byte> -> Digest)
    requires forall i | 0 <= i < |gs| :: |gs[i].elements| <= 1
    ensures HashOrderOf(gs) == []
    ensures CheckGroups(gs, sha) == Success([])
    decreases |gs|
  {
    if gs != [] {
      SmallGroupsNoSets(gs[..|gs| - 1], sha);
    }
  }

  // ---------------------------------------------------------------------
  // No file twice

  lemma {:induction false} AllFilesAppend(a: seq<DuplicateSet>, b: seq<DuplicateSet>)
    ensures AllFiles(a + b) == AllFiles(a) + AllFiles(b)
    decreases |b|
  {
    if b != [] {
      var n := |b| - 1;
      var ab := a + b;
      assert ab[..|ab| - 1] == a + b[..n];
      assert ab[|ab| - 1] == b[n];
      AllFilesAppend(a, b[..n]);
      calc {
        AllFiles(ab);
        AllFiles(a + b[..n]) + b[n].files;
        AllFiles(a) + AllFiles(b[..n]) + b[n].files;
        AllFiles(a) + (AllFiles(b[..n]) + b[n].files);
        AllFiles(a) + AllFiles(b);
      }
    } else {
      assert a + b == a;
    }
  }

  /** The sets built from some digest groups hold at most the files of those
      groups. */
  lemma {:induction false} AssembleFiles(hgs: seq<Grouping<Option<Digest>, HashedFile>>)
    ensures multiset(AllFiles(Assemble(hgs))) <= multiset(Select(Concat(hgs), FileOf))
    decreases |hgs|
  {
    if hgs != [] {
      var n := |hgs| - 1;
      var g := hgs[n];
      AssembleFiles(hgs[..n]);
      SelectAppend(Concat(hgs[..n]), g.elements, FileOf);
      var tail := if |g.elements| <= 1 then [] else [DuplicateSet(KeyOrEmpty(g.key), Select(g.elements, FileOf))];
      AllFilesAppend(Assemble(hgs[..n]), tail);
      if tail != [] {
        assert tail[..0] == [];
      }
    }
  }

  /** Hashing a length group keeps its files, in order. */
  lemma HashAllFiles(els: seq<FileInfo>, sha: seq<byte> -> Digest)
    requires HashAll(els, sha).Success?
    ensures Select(HashAll(els, sha).value, FileOf) == els
  {
    var hs := HashAll(els, sha).value;
    forall i | 0 <= i < |els| ensures Select(hs, FileOf)[i] == els[i] {
      assert Select(hs, FileOf)[i] == FileOf(hs[i]);
    }
  }

  /** The sets one length group yields hold at most its files. */
  lemma CheckGroupFiles(els: seq<FileInfo>, sha: seq<byte> -> Digest)
    ensures CheckGroup(els, sha).Success? ==> multiset(AllFiles(CheckGroup(els, sha).value)) <= multiset(els)
  {
    if |els| >= 2 && CheckGroup(els, sha).Success? {
      var hs := HashAll(els, sha).value;
      var hgs := HashGroups(hs);
      AssembleFiles(hgs);
      GroupByPartition(hs, HashKey, HashEquals);
      SelectMultiset(Concat(hgs), hs, FileOf);
      HashAllFiles(els, sha);
    }
  }

  /** The sets built from some length groups hold at most the files of those
      groups. */
  lemma {:induction false} CheckGroupsFiles(gs: seq<Grouping<nat, FileInfo>>, sha: seq<byte> -> Digest)
    ensures CheckGroups(gs, sha).Success? ==> multiset(AllFiles(CheckGroups(gs, sha).value)) <= multiset(Concat(gs))
    decreases |gs|
  {
    if gs != [] && CheckGroups(gs, sha).Success? {
      var n := |gs| - 1;
      var g := gs[n];
      CheckGroupsFiles(gs[..n], sha);
      var acc := CheckGroups(gs[..n], sha).value;
      var sets := CheckGroup(g.elements, sha).value;
      assert CheckGroups(gs, sha).value == acc + sets;
      CheckGroupFiles(g.elements, sha);
      AllFilesAppend(acc, sets);
      assert Concat(gs) == Concat(gs[..n]) + g.elements;
    }
  }

  /** No two files Check reports, in the same set or in different ones, have
      the same path ignoring case; so no file is in two sets. */
  lemma NoFileTwice(listed: seq<FileInfo>, sha: seq<byte> -> Digest)
    ensures CheckSpec(listed, sha).Success? ==> PairwiseUnequal(AllFiles(CheckSpec(listed, sha).value), SameFile)
  {
    if CheckSpec(listed, sha).Success? {
      var e := Enumerate(listed);
      var gs := GroupByLength(e);
      CheckGroupsFiles(gs, sha);
      GroupByPartition(e, LengthOf, SameLength);
      EnumerateDistinct(listed);
      forall x, y ensures SameFile(x, y) ==> SameFile(y, x) {
        SameFileIsEquivalence(x, y, y);
      }
      forall i | 0 <= i < |e| ensures SameFile(e[i], e[i]) {
        SameFileIsEquivalence(e[i], e[i], e[i]);
      }
      SubMultisetPairwise(AllFiles(CheckSpec(listed, sha).value), e, SameFile);
    }
  }

  // ---------------------------------------------------------------------
  // Completeness

  lemma {:induction false} AssembleContains(hgs: seq<Grouping<Option<Digest>, HashedFile>>, k: nat)
    requires k < |hgs| && |hgs[k].elements| >= 2
    ensures DuplicateSet(KeyOrEmpty(hgs[k].key), Select(hgs[k].elements, FileOf)) in Assemble(hgs)
    decreases |hgs|
  {
    var n := |hgs| - 1;
    if k < n {
      AssembleContains(hgs[..n], k);
      assert hgs[..n][k] == hgs[k];
    }
  }

  lemma {:induction false} CheckGroupsContains(gs: seq<Grouping<nat, FileInfo>>, sha: seq<byte> -> Digest, i: nat)
    requires i < |gs| && CheckGroups(gs, sha).Success?
    ensures CheckGroup(gs[i].elements, sha).Success?
    ensures forall s | s in CheckGroup(gs[i].elements, sha).value :: s in CheckGroups(gs, sha).value
    decreases |gs|
  {
    var n := |gs| - 1;
    var acc := CheckGroups(gs[..n], sha).value;
    assert CheckGroups(gs, sha).value == acc + CheckGroup(gs[n].elements, sha).value;
    if i < n {
      assert gs[..n][i] == gs[i];
      CheckGroupsContains(gs[..n], sha, i);
    }
  }

  /** Two different hashed files with one digest end up in one set. */
  lemma SameDigestOneSet(hs: seq<HashedFile>, x: HashedFile, y: HashedFile) returns (s: DuplicateSet)
    requires ExactGroups(HashGroups(hs), hs, HashKey)
    requires x in hs && y in hs && x != y && x.hash == y.hash
    ensures s in Assemble(HashGroups(hs)) && x.file in s.files && y.file in s.files
  {
    var hgs := HashGroups(hs);
    var k := SharedKeyGroup(hgs, hs, HashKey, x, y);
    AssembleContains(hgs, k);
    var members := hgs[k].elements;
    s := DuplicateSet(KeyOrEmpty(hgs[k].key), Select(members, FileOf));
    var mx :| 0 <= mx < |members| && members[mx] == x;
    var my :| 0 <= my < |members| && members[my] == y;
    assert |s.files| == |members|;
    assert s.files[mx] == FileOf(x) && s.files[my] == FileOf(y);
  }

  /** Within a length group that hashed, two different files with equal
      digests are reported in one set. */
  lemma EqualDigestsShareSet(els: seq<FileInfo>, sha: seq<byte> -> Digest, f: FileInfo, g: FileInfo) returns (s: DuplicateSet)
    requires CheckGroup(els, sha).Success?
    requires f in els && g in els && f != g
    requires f.content.Some? && g.content.Some? && sha(f.content.value) == sha(g.content.value)
    ensures s in CheckGroup(els, sha).value && f in s.files && g in s.files
  {
    var a :| 0 <= a < |els| && els[a] == f;
    var b :| 0 <= b < |els| && els[b] == g;
    assert |els| >= 2 by {
      assert a != b;
    }
    var hs := HashAll(els, sha).value;
    assert hs[a] == HashedFile(f, Some(sha(f.content.value)));
    assert hs[b] == HashedFile(g, Some(sha(g.content.value)));
    HashGroupsExact(els, sha, hs);
    s := SameDigestOneSet(hs, hs[a], hs[b]);
  }

  /** Two different enumerated files of one length whose contents have the
      same digest are reported in one set. */
  lemma CheckComplete(listed: seq<FileInfo>, sha: seq<byte> -> Digest, f: FileInfo, g: FileInfo)
    requires CheckSpec(listed, sha).Success?
    requires f in Enumerate(listed) && g in Enumerate(listed) && f != g && f.length == g.length
    requires f.content.Some? && g.content.Some? && sha(f.content.value) == sha(g.content.value)
    ensures exists s | s in CheckSpec(listed, sha).value :: f in s.files && g in s.files
  {
    var e := Enumerate(listed);
    var gs := GroupByLength(e);
    LengthGroupsExact(e);
    var i := SharedKeyGroup(gs, e, LengthOf, f, g);
    CheckGroupsContains(gs, sha, i);
    var s := EqualDigestsShareSet(gs[i].elements, sha, f, g);
  }
}
