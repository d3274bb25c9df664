/**
  HashEqualityComparer and FileInfoEqualityComparer: the two equality
  comparers the checker hands to GroupBy and Distinct, with the hash codes
  that must agree with them.
*/
module Comparers {
  import opened Wrappers
  import opened Files

  /** Enumerable.SequenceEqual on two byte arrays. */
  predicate SequenceEqual(a: seq<byte>, b: seq<byte>)
  {
    |a| == |b| && forall i | 0 <= i < |a| :: a[i] == b[i]
  }

  /** HashEqualityComparer.Equals; None stands for a null array. */
  predicate HashEquals(x: Option<Digest>, y: Option<Digest>)
  {
    if x.None? || y.None? then false else SequenceEqual(x.value, y.value)
  }

  /** Two digests are equal under the comparer exactly when both are present
      and hold the same bytes; in particular two nulls are not equal. */
  lemma HashEqualsIsPresentAndEqual(x: Option<Digest>, y: Option<Digest>)
    ensures HashEquals(x, y) <==> x.Some? && x == y
  {
    if x.Some? && y.Some? && SequenceEqual(x.value, y.value) {
      assert x.value == y.value;
    }
  }

  lemma HashEqualsSymmetric(x: Option<Digest>, y: Option<Digest>)
    ensures HashEquals(x, y) == HashEquals(y, x)
  {
    HashEqualsIsPresentAndEqual(x, y);
    HashEqualsIsPresentAndEqual(y, x);
  }

  /** The state of a System.HashCode after adding `bytes` one at a time. */
  function AddBytes(state: int, bytes: seq<byte>, add: (int, byte) -> int): int
    decreases |bytes|
  {
    if bytes == [] then state else add(AddBytes(state, bytes[..|bytes| - 1], add), bytes[|bytes| - 1])
  }

  /** What HashEqualityComparer.GetHashCode returns: 0 for null, otherwise the
      finished HashCode over all bytes. The random per-process seed of
      HashCode, its mixing step and its finaliser are parameters. */
  function DigestHashCode(obj: Option<Digest>, seed: int, add: (int, byte) -> int, finish: int -> int): int
  {
    if obj.None? then 0 else finish(AddBytes(seed, obj.value, add))
  }

  /** HashEqualityComparer.GetHashCode, adding the bytes in a loop. */
  method GetHashCode(obj: Option<Digest>, seed: int, add: (int, byte) -> int, finish: int -> int) returns (code: int)
    ensures code == DigestHashCode(obj, seed, add, finish)
  {
    if obj.None? {
      return 0;
    }
    var bytes := obj.value;
    var hash := seed;
    for i := 0 to |bytes|
      invariant hash == AddBytes(seed, bytes[..i], add)
    {
      assert bytes[..i + 1][..i] == bytes[..i];
      hash := add(hash, bytes[i]);
    }
    assert bytes[..|bytes|] == bytes;
    code := finish(hash);
  }

  /** The comparer's contract: digests it calls equal get equal hash codes,
      so the hash buckets of GroupBy never separate equal keys. */
  lemma HashCodeAgreesWithEquals(x: Option<Digest>, y: Option<Digest>, seed: int, add: (int, byte) -> int, finish: int -> int)
    requires HashEquals(x, y)
    ensures DigestHashCode(x, seed, add, finish) == DigestHashCode(y, seed, add, finish)
  {
    assert x.value == y.value;
  }

  /** Upper-casing as OrdinalIgnoreCase applies it, restricted to ASCII. */
  function ToUpperAscii(c: char): char
  {
    if 'a' <= c <= 'z' then (c as int - 32) as char else c
  }

  /** string.Equals(a, b, StringComparison.OrdinalIgnoreCase). */
  predicate EqualsOrdinalIgnoreCase(a: string, b: string)
  {
    |a| == |b| && forall i | 0 <= i < |a| :: ToUpperAscii(a[i]) == ToUpperAscii(b[i])
  }

  /** The case-folded form that ignore-case comparison and hashing work on. */
  function FoldCase(s: string): string
  {
    seq(|s|, i requires 0 <= i < |s| => ToUpperAscii(s[i]))
  }

  /** Comparing ignoring case is comparing the folded strings; hence it is an
      equivalence relation. */
  lemma IgnoreCaseIsFoldedEquality(a: string, b: string)
    ensures EqualsOrdinalIgnoreCase(a, b) <==> FoldCase(a) == FoldCase(b)
  {
    if FoldCase(a) == FoldCase(b) {
      assert |a| == |FoldCase(a)| == |FoldCase(b)| == |b|;
      forall i | 0 <= i < |a| ensures ToUpperAscii(a[i]) == ToUpperAscii(b[i]) {
        assert FoldCase(a)[i] == FoldCase(b)[i];
      }
    }
  }

  /** FileInfoEqualityComparer.Equals; None stands for a null FileInfo. */
  predicate FileInfoEquals(x: Option<FileInfo>, y: Option<FileInfo>)
  {
    if x.None? || y.None? then false else EqualsOrdinalIgnoreCase(x.value.fullName, y.value.fullName)
  }

  /** The comparer as Distinct applies it to the (never null) enumerated files. */
  predicate SameFile(a: FileInfo, b: FileInfo)
  {
    FileInfoEquals(Some(a), Some(b))
  }

  /** On files the comparer is an equivalence: reflexive, symmetric, transitive. */
  lemma SameFileIsEquivalence(a: FileInfo, b: FileInfo, c: FileInfo)
    ensures SameFile(a, a)
    ensures SameFile(a, b) == SameFile(b, a)
    ensures SameFile(a, b) && SameFile(b, c) ==> SameFile(a, c)
  {
    IgnoreCaseIsFoldedEquality(a.fullName, b.fullName);
    IgnoreCaseIsFoldedEquality(b.fullName, a.fullName);
    IgnoreCaseIsFoldedEquality(b.fullName, c.fullName);
    IgnoreCaseIsFoldedEquality(a.fullName, c.fullName);
  }

  /** FileInfoEqualityComparer.GetHashCode: the ignore-case string hash of the
      full name, i.e. some string hash of the folded name. */
  function FileInfoHashCode(f: FileInfo, stringHash: string -> int): int
  {
    stringHash(FoldCase(f.fullName))
  }

  lemma FileInfoHashCodeAgreesWithEquals(a: FileInfo, b: FileInfo, stringHash: string -> int)
    requires SameFile(a, b)
    ensures FileInfoHashCode(a, stringHash) == FileInfoHashCode(b, stringHash)
  {
    IgnoreCaseIsFoldedEquality(a.fullName, b.fullName);
  }
}
