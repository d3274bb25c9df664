# DuplicateChecker in Dafny

A model of the duplicate-detection engine of DuplicateChecker
(`DuplicateChecker/Checker.cs`), with proofs of what it promises.

`Checker.Check` finds files with identical contents in two stages:

1. It takes the enumerated files, drops system files, and keeps the first
   file of every path, comparing paths ignoring case.
2. It groups those files by length and skips every length group of one.
3. It hashes every member of the remaining groups.
4. Within each length group it groups the files by digest and reports every
   digest group of two or more as a `DuplicateSet`.

The result is stored in `Duplicates`. The constructor cleans the root paths
it is given. `DuplicateSetInfo` writes a set's digest with
`BitConverter.ToString`.

The project has these modules:

- `Files`: the observable state of a file.
  - `FileInfo` holds the full path, the length taken at enumeration, the
    attribute flags, and the bytes that opening it would return (`None`
    when it can no longer be opened).
  - `byte` and `Digest` are the byte and digest types.
- `Linq`: the LINQ operators Check is built from, over sequences.
  - `Select`, `Where`, `Distinct` with a comparer, and `GroupBy` with a
    key selector and a comparer.
  - `GroupBy` follows `Lookup` as in .NET: an element joins the first group
    whose key the comparer calls equal (earlier key first), else it opens a
    new group at the end.
  - Their general properties: partition, exact groups, first element kept.
- `Comparers`: `HashEqualityComparer` and `FileInfoEqualityComparer`,
  including their `GetHashCode`, with the comparer laws.
- `PathCleaning`: `Trim('"', ' ', '\'')` and `IsNullOrWhiteSpace`, and the
  constructor's `Paths`.
- `HexFormat`: `BitConverter.ToString` and a parser that reads it back.
- `Pipeline`: what `Check` computes, as pure functions (`CheckSpec`,
  `CheckGroups`, `CheckGroup`, `HashAll`, `Assemble`), and `HashOrder`, the
  files `ComputeHash` is called on, in order.
- `DuplicateChecker`: the classes `HaFile` and `Checker`.
  - `HaFile.ComputeHash` updates the `hash` field and counts its own calls
    in the ghost field `hashCalls`.
  - `Checker.Check` runs the source's nested `foreach` loops over
    `HaFile` objects.
  - Each loop is a method proved against the `Pipeline` functions.
  - `Check` also returns, as ghost values, the HaFiles it creates and the
    log of those it called `ComputeHash` on. Each HaFile's `hashCalls` is
    its number of entries in that log, and the files of the log are the
    hash order, up to the first unreadable file when the check fails.
- `CheckProperties`: what the result and the hashing order satisfy.
- `Report`: `DuplicateSetInfo`.

The directory enumeration is a parameter. `Check` takes the files the
`GetFiles` calls listed (`listed`) and the SHA-256 function (`sha`).

An unreadable file models the `IOException` thrown by `FileInfo.OpenRead`.
It becomes the `Failure(IOReadError(path))` branch of a `Result`. As in the
source, the error ends the check, later files are not opened, and
`Duplicates` is left unchanged.

The result of `Check` depends only on `listed` and `sha`. Running it twice
on the same files therefore gives the same sets.

## Model

| member | source | states |
|---|---|---|
| DuplicateChecker.Checker.constructor | DuplicateChecker/Checker.cs:12-18 | Paths is the cleaned path list; the flags are stored; Duplicates starts empty |
| PathCleaning.Trim | DuplicateChecker/Checker.cs:16 | neither end of the trimmed string is '"', ' ' or '\'' |
| PathCleaning.TrimStartDropsPrefix | DuplicateChecker/Checker.cs:16 | trimming the front removes a prefix made only of trim characters |
| PathCleaning.TrimEndDropsSuffix | DuplicateChecker/Checker.cs:16 | trimming the back removes a suffix made only of trim characters |
| PathCleaning.TrimRemovesOnlyEnds | DuplicateChecker/Checker.cs:16 | the trimmed string is a slice of the input with only trim characters before and after it |
| PathCleaning.TrimIdempotent | DuplicateChecker/Checker.cs:16 | trimming a trimmed string changes nothing |
| PathCleaning.TrimmedIsClean | DuplicateChecker/Checker.cs:16 | a trimmed string that is not blank is a clean path |
| PathCleaning.CleanPaths | DuplicateChecker/Checker.cs:16 | every kept path is non-blank with no trim character at either end; no more paths than given |
| PathCleaning.CleanPathsKeepsOrder | DuplicateChecker/Checker.cs:16 | the kept paths are a subsequence of the trimmed inputs, in input order |
| PathCleaning.CleanPathsKeepsNonBlank | DuplicateChecker/Checker.cs:16 | every input that is not blank once trimmed is kept |
| PathCleaning.CleanPathsIsSelectWhere | DuplicateChecker/Checker.cs:16 | the cleaned paths are exactly `Select(Trim)` followed by `Where(not blank)`: every non-blank trimmed path, as often as it occurs, in input order |
| Linq.WhereMembers | DuplicateChecker/Checker.cs:30 | Where keeps exactly the elements satisfying the predicate |
| Linq.DistinctIsSubsequence | DuplicateChecker/Checker.cs:31 | Distinct keeps a subsequence of its input, in order |
| Linq.DistinctPairwise | DuplicateChecker/Checker.cs:31 | no two kept elements are equal under the comparer |
| Linq.DistinctKeepsFirst | DuplicateChecker/Checker.cs:31 | an element no earlier element equals is kept |
| Linq.DistinctCovers | DuplicateChecker/Checker.cs:31 | with a reflexive comparer every input element is matched by a kept one |
| Linq.FindGroup | DuplicateChecker/Checker.cs:34 | GroupBy files an element under the first group whose key the comparer calls equal |
| Linq.GroupByPartition | DuplicateChecker/Checker.cs:34 | the groups together hold the input elements, each as often as it occurs in the input |
| Linq.GroupByExact | DuplicateChecker/Checker.cs:34 | when the comparer is equality on the keys: one group per key, holding exactly the elements with that key, in input order |
| Linq.GroupByMembers | DuplicateChecker/Checker.cs:34 | every group member is an input element |
| Linq.GroupBySelect | DuplicateChecker/Checker.cs:32-34 | grouping then mapping the members equals mapping then grouping by the matching key |
| Linq.HavingTwo | DuplicateChecker/Checker.cs:40 | a key's group has two or more members exactly when two input positions carry that key |
| Linq.SharedKeyGroup | DuplicateChecker/Checker.cs:34 | two different elements with one key share a group of two or more |
| Linq.GroupPartner | DuplicateChecker/Checker.cs:40 | a member of a group of two or more has a different partner with the same key |
| Comparers.HashEqualsIsPresentAndEqual | DuplicateChecker/Checker.cs:97-101 | two digests are equal under the comparer exactly when both are non-null and equal byte for byte; so null never equals null |
| Comparers.HashEqualsSymmetric | DuplicateChecker/Checker.cs:97-101 | the digest comparer is symmetric |
| Comparers.GetHashCode | DuplicateChecker/Checker.cs:103-110 | the loop returns 0 for null, else the finished fold of the bytes added in order |
| Comparers.HashCodeAgreesWithEquals | DuplicateChecker/Checker.cs:95-111 | digests the comparer calls equal get equal hash codes |
| Comparers.IgnoreCaseIsFoldedEquality | DuplicateChecker/Checker.cs:118 | ignore-case equality is equality of the case-folded paths |
| Comparers.SameFileIsEquivalence | DuplicateChecker/Checker.cs:115-119 | on files the path comparer is reflexive, symmetric and transitive |
| Comparers.FileInfoHashCodeAgreesWithEquals | DuplicateChecker/Checker.cs:113-123 | files the comparer calls equal get equal hash codes |
| Pipeline.FirstUnreadable | DuplicateChecker/Checker.cs:41-42 | the position of the first file that cannot be opened: all before it can, it cannot |
| Pipeline.FirstUnreadableUnique | DuplicateChecker/Checker.cs:41-42 | that position is the only one with those properties |
| Pipeline.HashAll | DuplicateChecker/Checker.cs:41-42 | hashing a group fails exactly when some member cannot be opened, with the first such file's path; otherwise every file is paired with the digest of its bytes, in order |
| Pipeline.HashAllFailurePrefix | DuplicateChecker/Checker.cs:41-42 | once a prefix fails, the files after it do not change the error |
| Pipeline.CheckGroupsFailurePrefix | DuplicateChecker/Checker.cs:38-51 | once a length group fails, later groups do not change the error |
| Pipeline.HashOrderPrefix | DuplicateChecker/Checker.cs:38-42 | the files hashed for the first groups come first in the hash order |
| Pipeline.CheckGroupsTurnSucceeds | DuplicateChecker/Checker.cs:38-51 | a succeeding turn adds its sets to the result and its files to the hash order |
| DuplicateChecker.HaFile.constructor | DuplicateChecker/Checker.cs:80-85 | a HaFile holds its FileInfo and that file's length, with no hash yet and never opened |
| DuplicateChecker.HaFile.ComputeHash | DuplicateChecker/Checker.cs:88-92 | opens the file once more; returns the digest of the file's bytes and stores it in Hash, or fails naming the file and leaves Hash unchanged |
| DuplicateChecker.MakeHaFiles | DuplicateChecker/Checker.cs:32 | one new HaFile per file, in order, none hashed or opened |
| DuplicateChecker.HaFileGroups | DuplicateChecker/Checker.cs:32-34 | grouping the HaFiles by Length groups their files as grouping the files by length does |
| DuplicateChecker.ComputeHashes | DuplicateChecker/Checker.cs:41-42 | hashes the members in order; stops at the first that cannot be opened, which is the last one tried; otherwise every member's Hash is its digest; ComputeHash is called once per occurrence among the members tried and on nothing else |
| DuplicateChecker.CollectSets | DuplicateChecker/Checker.cs:45-50 | the sets collected are one per digest group of two or more, keyed by `Key ?? []`, in group order |
| DuplicateChecker.CheckLengthGroup | DuplicateChecker/Checker.cs:40-50 | one length group gives the sets CheckGroup specifies; ComputeHash is called on none of a group of one, on every member on success, and on the members up to and including the first unreadable one on failure |
| DuplicateChecker.HashLogStep | DuplicateChecker/Checker.cs:38-42 | the files of the call log after one more turn are those before it followed by the tried members' files |
| DuplicateChecker.HashLogInfo | DuplicateChecker/Checker.cs:41-42 | the file of a logged HaFile is among the logged files |
| DuplicateChecker.NotLogged | DuplicateChecker/Checker.cs:29-42 | a HaFile whose file is outside the hash order has no entry in a log whose files are a prefix of it |
| DuplicateChecker.CheckLengthGroups | DuplicateChecker/Checker.cs:36-51 | the outer loop gives CheckGroups of the length groups; each HaFile's ComputeHash calls are its entries in the call log, whose files are the hash order on success and the hash order up to and including its first unreadable file on failure |
| DuplicateChecker.Checker.Check | DuplicateChecker/Checker.cs:27-54 | returns CheckSpec of the listed files; creates one HaFile per enumerated file; calls ComputeHash exactly on the hash order on success and on its prefix through the first unreadable file on failure; never opens a file outside the hash order; Duplicates is the result on success and unchanged on failure |
| CheckProperties.EnumerateMembers | DuplicateChecker/Checker.cs:29-31 | every file checked was listed and is not a system file |
| CheckProperties.EnumerateCovers | DuplicateChecker/Checker.cs:30-31 | every listed non-system file is represented by a checked file with the same path ignoring case |
| CheckProperties.EnumerateDistinct | DuplicateChecker/Checker.cs:31 | no two checked files have the same path ignoring case |
| CheckProperties.LengthGroupsExact | DuplicateChecker/Checker.cs:34 | one length group per length, holding exactly the files of that length |
| CheckProperties.HashOrderMembers | DuplicateChecker/Checker.cs:38-42 | a file is hashed exactly when it is in a length group of two or more |
| CheckProperties.HashOrderExact | DuplicateChecker/Checker.cs:29-42 | a file is hashed exactly when it is checked and another checked file has the same length |
| CheckProperties.UniqueLengthNeverHashed | DuplicateChecker/Checker.cs:38-42 | a file whose length no other checked file shares is never hashed and is in no set |
| CheckProperties.NoSharedLengthNoSets | DuplicateChecker/Checker.cs:38-40 | with all lengths distinct nothing is hashed and no set is returned |
| CheckProperties.CheckGroupsFailure | DuplicateChecker/Checker.cs:38-42 | the outer loop fails exactly when a file in the hash order cannot be opened, with the first such file's path |
| CheckProperties.FirstUnreadableAfter | DuplicateChecker/Checker.cs:41-42 | past readable files, the first unreadable file of a concatenation is that of the next block, and the files up to it are the readable ones and that block's prefix |
| CheckProperties.SucceedsAllReadable | DuplicateChecker/Checker.cs:38-42 | when the check over some length groups succeeds, every file in their hash order can be opened |
| CheckProperties.HashOrderSplit | DuplicateChecker/Checker.cs:38-42 | the hash order is the earlier groups' files, then a group of two or more, then the rest |
| CheckProperties.FailingTurnTried | DuplicateChecker/Checker.cs:38-42 | the files tried when a turn fails after succeeding turns are the hash order up to and including its first unreadable file |
| CheckProperties.CheckGroupsTurnFails | DuplicateChecker/Checker.cs:38-51 | a failing turn of the outer loop ends the check with its error, having tried exactly the hash order up to and including its first unreadable file |
| CheckProperties.CheckFailsOnFirstUnreadable | DuplicateChecker/Checker.cs:27-54 | Check fails exactly when a file it must hash cannot be opened, naming the first such file |
| CheckProperties.HashGroupsExact | DuplicateChecker/Checker.cs:43 | once every member is hashed, the digest comparer is equality on keys, so digest groups are exact |
| CheckProperties.HashKeysPresent | DuplicateChecker/Checker.cs:41-49 | no digest group has a null key, so the `?? []` fallback is never used |
| CheckProperties.CheckGroupSound | DuplicateChecker/Checker.cs:40-50 | every set from one length group is sound |
| CheckProperties.CheckSound | DuplicateChecker/Checker.cs:27-54 | every returned set has two or more hashed files of one length, each readable with a digest equal to the set's hash |
| CheckProperties.CheckGroupsFiles | DuplicateChecker/Checker.cs:34-51 | the sets' files, counted with multiplicity, are among the length groups' files |
| CheckProperties.NoFileTwice | DuplicateChecker/Checker.cs:31-49 | no two files in the whole result have the same path ignoring case; no file is in two sets or twice in one |
| CheckProperties.SameDigestOneSet | DuplicateChecker/Checker.cs:43-49 | two different hashed files with one digest are in one set |
| CheckProperties.EqualDigestsShareSet | DuplicateChecker/Checker.cs:40-50 | within a length group that hashed, two different files with equal digests share a set |
| CheckProperties.CheckComplete | DuplicateChecker/Checker.cs:27-54 | after a successful Check, any two different checked files of one length with equal digests are in a common set |
| HexFormat.HexValue | DuplicateChecker/Checker.cs:76 | a recognised digit is an upper-case hex digit of its value |
| HexFormat.BitConverterToString | DuplicateChecker/Checker.cs:76 | the text has length 3n-1 for n > 0 bytes and is empty for none |
| HexFormat.ToStringLayout | DuplicateChecker/Checker.cs:76 | byte i is written as its high and low upper-case hex digits at 3i and 3i+1, followed by '-' unless it is last |
| HexFormat.ToStringAlphabet | DuplicateChecker/Checker.cs:76 | the text holds only upper-case hex digits and '-' |
| HexFormat.ParseToString | DuplicateChecker/Checker.cs:76 | parsing the text gives the bytes back |
| HexFormat.ToStringParse | DuplicateChecker/Checker.cs:76 | only text in exactly that form parses, and it is written back unchanged |
| Report.Info | DuplicateChecker/Checker.cs:74-78 | the digest text parses back to the set's hash and has length 3n-1 (or 0); Files are the full names of the set's files, in order |
| Report.InfoHashInjective | DuplicateChecker/Checker.cs:76 | sets written with the same digest text have the same digest |

## Left out

- Program.cs in DuplicateCheckerConsole (prompting, printing, the save prompt) is console I/O and is not part of this model.
- DuplicateChecker.Checker.Check: takes the listed files as a parameter. `Dirs`, `DirectoryInfo`, `GetFiles`, `SearchPattern` matching and recursion are file-system calls. `Recursive` and `SearchPattern` are stored but not used. Errors from a missing root directory or from enumeration are not modelled.
- SHA-256 and stream reading are library and I/O code. The digest is a function parameter `sha` of the file's bytes. The shared static `SHA256` instance matters only under concurrency, which the source does not use.
- Comparers.EqualsOrdinalIgnoreCase: folds ASCII letters only and compares other characters exactly. The full Unicode upper-casing of `OrdinalIgnoreCase` is a library table.
- Comparers.GetHashCode: the `HashCode` seed, `Add` mixing and `ToHashCode` finish are parameters, because .NET randomises them per process. Only the loop structure and the agreement with `Equals` are stated.
- Comparers.FileInfoHashCode: `StringComparer.OrdinalIgnoreCase.GetHashCode` is a parameter applied to the case-folded path.
- Linq.GroupBy: groups by the comparer's `Equals` alone, without hash buckets. This matches .NET's `Lookup` because both comparers' hash codes agree with their `Equals` (HashCodeAgreesWithEquals, FileInfoHashCodeAgreesWithEquals).
- DuplicateChecker.CheckLengthGroup: pairs each file with its stored `Hash` right after hashing. The source reads `Hash` lazily inside the second `GroupBy`. Nothing writes `Hash` in between, so the values are the same.
- Files.FileInfo: `Length` is an unbounded `nat` rather than a 64-bit `long`. File lengths are never negative and never near the limit.
- Files.FileInfo: a file's bytes are one snapshot. A file that changes between enumeration and hashing is modelled only as readable or unreadable.
- Exceptions other than an unreadable file are not modelled, for example `FileInfo.Length` on a vanished file or access denied during enumeration. Null arrays and null strings passed to the constructor are not modelled either.
- `SaveResult` (JSON serialisation, the encoder options, `DateTime.Now`, the file write) is I/O and library code.
