# Noqeri registry and packages: a verified model

This project models the parts of the Noqeri repository whose correctness is
hardest to see from one body, and proves properties of them for all inputs, all
runs and all interleavings.

**Package algorithms.** The byte loops that ship inside `release-011-batch2.json`
and `release-011-batch3.json` as package sources: two backtracking wildcard
matchers, the CSV codec and row scanner, the hexadecimal, decimal and SemVer
codecs, block and cyclic distribution, the token bucket, the JSON lexers and
quoter, and the route matcher. Slices that are only read are sequences of bytes,
slices that are written are arrays; every loop of the source is a loop here, and
a buffer that is written is described whole, before and after.

**The database host.** `DBHost` twice over. `DbProtocol` and `DbRuns` take each
section under the mutex, and each driver call outside it, as one atomic step and
prove what every interleaving keeps; `DbCalls` has what each step tells the driver
and what each call answers. `DbHost` has the object itself, with its map
of shared handles, and proves its methods against the same steps.

**The registry.** `semverCompare` and the catalog that `Open` builds, the walk and
the artifact of `BuildArchive`, and `ArtifactCache`. Regular expressions are
direct predicates; sorting is a stable insertion sort whose result, wherever the
comparison ranks the list, is proved to be the only stable one, so any stable
library sort gives the same list there.

| files | source |
|---|---|
| `Glob`, `GlobMeaning`, `Wildcard` | glob |
| `RegexLite` | regex-lite |
| `Csv` | csv |
| `Hex`, `Std`, `SemverCore`, `Decimals` | hex, std, semver |
| `Pgas`, `RateLimit` | pgas, rate-limit |
| `Json`, `Router` | json, router |
| `DbProtocol`, `DbRuns`, `DbCalls`, `DbHost` | `internal/hostbridge/db.go` |
| `Versions`, `Catalog` | `internal/registry/catalog.go` |
| `Archive` | `internal/registry/archive.go` |
| `Bytes`, `Buffers`, `Outcomes`, `Arithmetic`, `Orders`, `Sorting`, `Texts` | shared definitions |

## Where the code does not do what it is for

Each is kept as the code has it, shown on a concrete input or run, and delimited
by a condition that is both necessary and sufficient.

- **glob**: an escaping backslash also matches a backslash byte of the input, so
  the pattern `\*` accepts `\xyz`. No match is ever lost. An input is safe for
  every pattern exactly when it has no backslash; a pattern is safe for every
  input exactly when it is transparent. The literal prefix and literal matching
  have conditions of their own, on the escapes they involve.
- **regex-lite**: equality is tried before the star, so `*` rejects `*a`. Nothing
  false is accepted. A value is safe for every pattern exactly when it has no
  `*`, and every pattern with a star loses a match on some value. Which
  occurrences `*needle*` finds is stated for every value.
- **semverCompare**: the version pattern admits `-01`, and `-1` and `-01` are each
  before the other. The catalog sorts by the test for later alone, for which two
  that clash in this way tie; `1.0.0-1`, `1.0.0-01` and `1.0.0-1.a` then have no
  order. The test ranks a list of releases exactly when clashes are transitive in
  it. Numeric identifiers above 2^64-1 are ordered as text.
- **csv**: the row scanner lets a quote open after bare bytes, so `a"b"` is a field
  though not a cell. Without such a quote, and only then, a counted row is a row
  of cells.
- **rate-limit**: with capacity 2^63-1, an empty bucket and rate one, the headroom
  test overflows and any wait fills the bucket.
- **pgas**: owners and offsets of 2^63 or more come back negative, as though nobody
  owned the index, and the largest rank, cast, is taken for "no owner".
- **CloseAll**: an Open in flight when the ids are listed can always be run so that
  it leaves a live handle behind; when none is in flight, and none starts, nothing
  is left.
- **ArtifactCache**: the key is the release path alone, so one cache serves one
  directory per path.
- **router**: a segment that is a colon alone matches no path, not even itself.

## Model

| member | source | states |
|---|---|---|
| `Glob.GlobPatternValid` | release-011-batch2.json:25 | the validity scan accepts exactly the patterns with no lone final backslash |
| `Glob.GlobHasWildcard` | release-011-batch2.json:25 | true exactly when one of the pattern's documented elements is a `*` or a `?` that is not escaped |
| `Glob.BytesOfAPattern` | release-011-batch2.json:25 | the bytes with a meaning of their own, and the one byte that no wildcard takes in slash-safe mode |
| `Glob.GlobLiteralPrefix` | release-011-batch2.json:25 | the length of the longest run of literals the pattern's elements start with: all before it are literals, the next is not |
| `Glob.GlobMatchMode` | release-011-batch2.json:25 | the backtracking loop decides the non-deterministic byte reading of the pattern, in both modes and for all inputs, in at most (n+1)·m+n iterations; it ends by the measure on restart, star and positions |
| `Wildcard.MatchesMeansCut` | release-011-batch2.json:25 | what matching means for both packages: the input cuts into one piece an element, a star taking any bytes, `?` one byte, a literal itself, and neither wildcard a `/` in slash-safe mode |
| `Glob.LastStarSuffices` | release-011-batch2.json:25 | keeping only the last star loses no match: whatever an earlier choice of a star's length can still read, the last star can read |
| `GlobMeaning.MeaningIsAccepted` | release-011-batch2.json:25 | completeness with no condition on bytes: every input that the unescaped elements match is accepted |
| `GlobMeaning.ExactForAllPatternsIff` | release-011-batch2.json:25 | an input is matched as documented by every valid pattern if and only if it has no backslash |
| `GlobMeaning.ExactForAllInputsIff` | release-011-batch2.json:25 | a valid pattern matches every input as documented if and only if it is transparent, a syntactic test on its escapes |
| `GlobMeaning.PlainPatternIsTransparent` | release-011-batch2.json:25 | a pattern without backslashes is valid and transparent, so it is matched as documented |
| `GlobMeaning.EscapedStarAcceptsBackslash` | release-011-batch2.json:25 | the concrete failure: pattern `\*` is documented to match `*` alone but accepts `\xyz` |
| `GlobMeaning.SafeReadIsPlain` | release-011-batch2.json:25 | slash-safe acceptance implies plain acceptance, for all patterns and inputs |
| `GlobMeaning.SlashesAreKept` | release-011-batch2.json:25 | in slash-safe mode an accepted input has exactly as many `/` as the pattern |
| `GlobMeaning.AcceptedStartsWithPrefix` | release-011-batch2.json:25 | an accepted input begins with the literal prefix, when it has no backslash or each escape in that prefix is of a backslash |
| `GlobMeaning.PrefixForAllPatternsIff` | release-011-batch2.json:25 | an input begins with the literal prefix of every pattern that accepts it if and only if it has no backslash |
| `GlobMeaning.PrefixForAllInputsIff` | release-011-batch2.json:25 | every input a valid pattern accepts begins with its literal prefix if and only if each escape in that prefix is of a backslash |
| `GlobMeaning.GlobMatchLiteral` | release-011-batch2.json:25 | where either side is free of misread escapes, true exactly when the valid pattern's elements are the input's bytes; equality is never missed |
| `GlobMeaning.LiteralEqualityIff` | release-011-batch2.json:25 | on an input, literal matching is equality for all wildcard-free valid patterns if and only if the input has no backslash |
| `GlobMeaning.LiteralPatternIff` | release-011-batch2.json:25 | a valid wildcard-free pattern is matched by equality on all inputs if and only if each of its escapes is of a backslash |
| `RegexLite.RegexWildcardMatch` | release-011-batch3.json:97 | the loop that tries equality before the star decides its non-deterministic reading, in at most (n+1)·m+n iterations |
| `RegexLite.LastStarSuffices` | release-011-batch3.json:97 | keeping only the last star loses nothing of that reading |
| `RegexLite.AcceptedIsMatch` | release-011-batch3.json:97 | soundness with no condition: whatever is accepted is a true match |
| `RegexLite.MatchIsAccepted` | release-011-batch3.json:97 | completeness when the value or the pattern has no `*` byte |
| `RegexLite.ExactForAllPatternsIff` | release-011-batch3.json:97 | a value is matched as documented by every pattern if and only if it has no `*` |
| `RegexLite.ExactForAllValuesIff` | release-011-batch3.json:97 | a pattern matches every value as documented if and only if it has no `*`: every starred pattern loses some match |
| `RegexLite.StarRejectsStarA` | release-011-batch3.json:97 | the concrete failure: pattern `*` rejects `*a` |
| `RegexLite.AgreesWithGlob` | release-011-batch3.json:97 | on values without `*` and patterns without a backslash the two packages give the same answer |
| `RegexLite.RegexFindLiteral` | release-011-batch3.json:97 | the first occurrence of the needle, or -1 when there is none; for a needle without wildcards and a value without `*`, found exactly when the wildcard matcher accepts `*needle*` |
| `RegexLite.FindIsMatch` | release-011-batch3.json:97 | a needle without wildcards occurs exactly when the documented meaning of `*needle*` admits the value |
| `RegexLite.SearchIsMatchingIff` | release-011-batch3.json:97 | the wildcard matcher accepts `*needle*`, for any value, if and only if the needle has an occurrence that the literal `*` bytes at the front and after it leave usable |
| `RegexLite.FollowedByStarsIsLost` | release-011-batch3.json:97 | the concrete failure: `a` occurs in `a**`, which `*a*` rejects |
| `DbProtocol.StepKeepsInvariant` | internal/hostbridge/db.go:82-163 | every atomic step of Open, Close, CloseAll, Begin, Commit, Rollback and Exec keeps: one owner for each unclosed database, nothing lost, ids in order, an admissible history |
| `DbProtocol.RunKeepsInvariant` | internal/hostbridge/db.go:82-163 | so does every interleaving of such steps |
| `DbProtocol.RunKeepsBound` | internal/hostbridge/db.go:84-90 | at most eight handles are live after every interleaving, if no more were before |
| `DbRuns.EveryRunIsSafe` | internal/hostbridge/db.go:82-163 | in every run: at most eight live handles; ids strictly increase and are never reissued; a database is closed at most once and not used after; a transaction is begun once, finished at most once and not used after; none is left unfinished when its database closes; one is open at a time |
| `DbRuns.Conservation` | internal/hostbridge/db.go:69-113 | in every run the opened databases are the live, the in-flight and the closed ones, pairwise disjoint, with one live database a handle |
| `DbRuns.TakenIsPrivate` | internal/hostbridge/db.go:100-113 | a handle that Close or an unfinished Open holds is touched by no step of another call, and no driver call of another concerns its database |
| `DbRuns.CallsCanFinish` | internal/hostbridge/db.go:39-124 | a call in flight always has an enabled step of its own, which brings it closer to its end, and no other call undoes its progress |
| `DbRuns.CloseAllLeavesOnlyLaterHandles` | internal/hostbridge/db.go:114-124 | whatever else runs, once CloseAll has returned every live handle was issued after it listed the ids |
| `DbRuns.CloseAllClosesEverythingOnce` | internal/hostbridge/db.go:114-124 | when no Open registers during it, and all calls have returned, no handle is live and every database ever opened was closed exactly once |
| `DbRuns.CloseAllCanMissAnOpen` | internal/hostbridge/db.go:82-124 | the concrete failure with a racing Open: a database still being pinged when the ids were listed is live after CloseAll |
| `DbRuns.CloseAllIsCompleteIff` | internal/hostbridge/db.go:69-124 | in every reachable state: every run from the listing to quiet, in which no Open starts, closes everything exactly once if and only if no Open is in flight as the ids are listed |
| `DbCalls.StepSaysIff` | internal/hostbridge/db.go:69-230 | a step makes a driver call, or gives out a handle, exactly when it warrants it: a transaction is committed by Commit alone, on the handle that has it, and rolled back by Rollback or by Close of a handle it took |
| `DbCalls.HistoryIsWarranted` | internal/hostbridge/db.go:69-230 | in every run an event is in the history if and only if it was there before or some step of the run warranted it in the state it was taken in |
| `DbCalls.EntryIff` | internal/hostbridge/db.go:69-230 | what is under an id after a step: what Open, Begin, Commit or Rollback put there, and otherwise what was there, unless Close took it |
| `DbCalls.LockedCalls` | internal/hostbridge/db.go:125-230 | Begin, Commit, Rollback and Exec can be called at any time by a thread in no other call, and are then one step that leaves the other calls be |
| `DbCalls.OpenAnswers` | internal/hostbridge/db.go:82-90 | Open answers a new id, under which the database now is, if and only if fewer than eight handles are in use |
| `DbCalls.BeginAnswers` | internal/hostbridge/db.go:125-141 | which of its four answers Begin gives, in terms of the handle and of the driver |
| `DbCalls.FinishAnswers` | internal/hostbridge/db.go:142-163 | which of their three answers Commit and Rollback give |
| `DbCalls.ExecAnswers` | internal/hostbridge/db.go:214-230 | which of its answers Exec gives |
| `DbCalls.SessionRoundTrip` | internal/hostbridge/db.go:82-230 | Open, Begin, Exec, Commit or Rollback, and Close, on the id that Open answered and with nothing between: all succeed, the driver is told just this, and the handles are as before |
| `DbHost.Host.constructor` | internal/hostbridge/db.go:30 | a new host is the initial state |
| `DbHost.Host.RegisterHandle` | internal/hostbridge/db.go:82-90 | the locked end of Open on the object is the protocol's step: the ninth handle is refused and its database closed, otherwise the next id is answered, and the database is under it |
| `DbHost.Host.TakeHandle` | internal/hostbridge/db.go:101-104 | the locked start of Close removes the handle, and only it |
| `DbHost.Host.Release` | internal/hostbridge/db.go:108-111 | the unlocked end of Close rolls back the open transaction, then closes the database, and touches no handle |
| `DbHost.Host.Close` | internal/hostbridge/db.go:100-113 | without interference: the handle is gone, its transaction rolled back, its database closed, the others unchanged; an unknown id is an error |
| `DbHost.Host.CloseAll` | internal/hostbridge/db.go:114-124 | without interference: the effect of closing each listed handle, the list being the live ids, each once |
| `DbHost.CloseEachEmpties` | internal/hostbridge/db.go:114-124 | which leaves no handle and closes the databases that were live, and no others |
| `DbHost.Host.BeginTransaction` | internal/hostbridge/db.go:125-141 | on the object, the protocol's Begin: three errors, or the transaction is remembered in the handle |
| `DbHost.Host.Commit` | internal/hostbridge/db.go:142 | Commit tells the driver to commit the open transaction |
| `DbHost.Host.Rollback` | internal/hostbridge/db.go:143 | Rollback tells the driver to roll it back |
| `DbHost.Host.FinishTransaction` | internal/hostbridge/db.go:144-163 | both forget the transaction, also when the driver fails |
| `DbHost.Host.Execute` | internal/hostbridge/db.go:214-230 | Exec runs within the open transaction when there is one, and changes no handle |
| `DbHost.UninterruptedClose` | internal/hostbridge/db.go:100-113 | Close without interference is one of the protocol's own runs |
| `DbHost.UninterruptedCloseAll` | internal/hostbridge/db.go:114-124 | so is CloseAll: alone, from the listing to its return, it closes each listed handle in turn |
| `Versions.SemverCompare` | internal/registry/catalog.go:66-88 | the two loops with their early returns compute the comparison on core fields, then prerelease parts |
| `Versions.VersionIff` | internal/registry/catalog.go:16 | the texts admitted as versions, found by cutting at `+`, `-` and `.`, are exactly those the version pattern generates |
| `Versions.CompareIsTotalPreorder` | internal/registry/catalog.go:66-88 | on admitted versions no two of which clash: antisymmetric, transitive, total, and zero exactly when two differ at most in build metadata |
| `Versions.ConsistentIffNoClash` | internal/registry/catalog.go:66-88 | over all versions the registry admits, swapping the arguments negates the result if and only if the two do not clash, that is, do not first differ in two spellings of one number; two that clash are each before the other |
| `Versions.CompareRanksIff` | internal/registry/catalog.go:66-88 | as a three-way comparison it ranks a list of admitted versions if and only if no two of them clash |
| `Versions.LaterIsStrictOrder` | internal/registry/catalog.go:60-88 | over all admitted versions, clashing or not, being later is a strict partial order, and neither of two is later if and only if they differ at most in build metadata or clash |
| `Versions.SpellingsClash` | internal/registry/catalog.go:79-82 | the failing family: every number within 64 bits and its spelling with one more zero are each before the other, as `1.0.0-1` and `1.0.0-01` |
| `Versions.ZeroMeansSameMain` | internal/registry/catalog.go:66-88 | over all admitted versions, zero means equal up to build metadata |
| `Versions.FieldsCompareAsNumbers` | internal/registry/catalog.go:70-73 | the fallback by length and then text is the order of unbounded numbers |
| `Versions.CompareIsPrecedence` | internal/registry/catalog.go:66-88 | with numeric identifiers within 64 bits, the comparison is the precedence of section 11 of SemVer 2.0.0 |
| `Versions.PlacedByPrecedenceIff` | internal/registry/catalog.go:76-86 | a clean version is placed against all others as section 11 asks if and only if each of its identifiers passes a test on its own bytes |
| `Versions.LargeNumberMisplaced` | internal/registry/catalog.go:80-83 | the failing family: every number over 64 bits is placed after `1.0.0--` |
| `Catalog.Open` | internal/registry/catalog.go:47-64 | the decoded index gives a registry if and only if it is good, and otherwise its first fault; the registry is of its packages: listed by id, each under its id in the map, each with its releases rearranged and, where their clashes are transitive, latest first |
| `Catalog.RegistryIsUniqueIf` | internal/registry/catalog.go:47-64 | an index in which the clashes of each package are transitive has one such registry |
| `Catalog.CheckVersions` | internal/registry/catalog.go:53-59 | the inner loop reports the first bad version, repeated version or wrong path |
| `Catalog.NoFaultIff` | internal/registry/catalog.go:49-59 | nothing is refused if and only if names and versions have their form, paths are the expected ones, and neither ids nor versions of a package repeat |
| `Catalog.GoodIndexIff` | internal/registry/catalog.go:46-59 | the indexes that open, in the terms of the format: protocol and format, names of words joined by hyphens, versions of the pattern, no two alike in a package, the expected paths, and no two packages with both names alike |
| `Catalog.FirstFaultBlames` | internal/registry/catalog.go:50-58 | the fault reported is that of the first package at fault, and of its first release at fault: those before it are good, and the kind, id and version of the fault are its own |
| `Catalog.IdentityIff` | internal/registry/catalog.go:15 | a name is admitted if and only if it is words of digits and small letters joined by hyphens, the first of them not empty |
| `Catalog.LookupAgreesWithList` | internal/registry/catalog.go:48-64 | in every registry of an accepted index, clashes or not, the map and a linear search of the list agree on every id |
| `Catalog.PackagesAreListedById` | internal/registry/catalog.go:63 | in every such registry the list is a permutation of the packages with their releases rearranged, in strictly increasing order of id |
| `Catalog.ReleasesRankIff` | internal/registry/catalog.go:60-88 | the test given to the sort ranks a list of admitted releases, as sorting needs, if and only if their clashes are transitive: whenever two clash with a third, neither is later than the other |
| `Catalog.LatestFirstExistsIff` | internal/registry/catalog.go:60-88 | admitted releases can be put latest first with ties in order, in whatever order they are given, if and only if their clashes are transitive |
| `Catalog.ThreeSpellingsHaveNoOrder` | internal/registry/catalog.go:60-88 | the failing family: `1.0.0-1`, `1.0.0-01` and `1.0.0-1.a`, given in this order, have no such arrangement, whatever the number; the first two alone keep their order |
| `Catalog.ReleasesAreLatestFirst` | internal/registry/catalog.go:60 | where clashes are transitive, the releases are a permutation of the given ones, latest first, ties in the order given; and no other list is so |
| `Catalog.IdsAreInjective` | internal/registry/catalog.go:50-52 | two packages with one id have the same namespace and name |
| `Catalog.PathsAreInjective` | internal/registry/catalog.go:57 | two releases with one path agree in namespace, name and version |
| `Catalog.ReleasePathIsSafeIff` | internal/registry/catalog.go:57-58 | a release path of an accepted package is safe to build from, and the cache takes it, if and only if it is at most 100 bytes |
| `Archive.CheckSafeRelative` | internal/registry/archive.go:35-39 | decides safety of a path |
| `Archive.SafeIsJoinOfNames` | internal/registry/archive.go:35-39 | a path is safe if and only if, within 100 bytes and without backslash or zero, it is a join of non-empty names none of which is `.` or `..` |
| `Archive.SafeDescends` | internal/registry/archive.go:35-39 | resolving a safe path from any directory leads down by exactly its own segments; every path that does so, and is short and without backslash or NUL, is safe |
| `Archive.Collect` | internal/registry/archive.go:44-68 | the running counters accept exactly the trees within the limits in which no file reports a size above what is left of the cap when it is reached, and a still tree exactly when it is within the limits; what is collected is the tree's files, and a refusal is that of the first node refused |
| `Archive.WithinLimitsIff` | internal/registry/archive.go:51-68 | the limits in full: only directories and regular files under safe paths, at most 256 of each, no directory more than twelve deep, and eight MiB in all |
| `Archive.FileIff` | internal/registry/archive.go:67 | the collected files are the regular nodes, each under its path with its bytes |
| `Archive.BuildArchive` | internal/registry/archive.go:41-94 | a tree with distinct paths is built if and only if it is within the limits, reported sizes fit, and its sorted files make an artifact; an artifact is what the order-free description gives; a tree is refused if and only if that gives none or a reported size does not fit, and a still tree only when that gives none |
| `Archive.BuildIsOrderFree` | internal/registry/archive.go:44-79 | every order of visiting the same nodes gives the same decision and the same artifact |
| `Archive.MembersAreTheFiles` | internal/registry/archive.go:69 | the packed members are the tree's files, each once, in strictly increasing order of name |
| `Archive.AssembleIff` | internal/registry/archive.go:70-93 | an artifact is made if and only if there is a manifest whose entry is a safe name with the source suffix of one of the files, and the files pack into at most eight MiB |
| `Archive.AssembleRefuses` | internal/registry/archive.go:70-92 | otherwise what is missing first is named: the manifest, a proper entry, the file it names, a packing, a small enough one |
| `Archive.Assemble` | internal/registry/archive.go:70-93 | an artifact has the digest of its bytes, at most 8 MiB, and the entry and dependencies that a collected manifest declares; the entry is a safe name that ends in `.noqeri` and names a collected file |
| `Archive.ArtifactCache.Get` | internal/registry/archive.go:100-109 | one lookup: the cached artifact, or a refusal, or a new artifact that is then cached; errors are not cached |
| `Archive.CacheIsTransparentIff` | internal/registry/archive.go:96-109 | a run of lookups answers like rebuilding each time, whatever building a directory gives, if and only if no cacheable path is asked for in two joined directories |
| `Csv.NeedsQuoting` | release-011-batch2.json:7 | a cell needs quotes exactly when it holds a quote, the delimiter or a newline byte |
| `Csv.BytesOfARow` | release-011-batch2.json:7 | the four delimiters, and the bytes that a bare cell must not hold |
| `Csv.QuotedSize` | release-011-batch2.json:7 | the size is the number of bytes the encoder writes |
| `Csv.EncodeCell` | release-011-batch2.json:7 | writes the chosen text at the front of the buffer and nothing else, or leaves the buffer alone when the delimiter is bad or the text does not fit |
| `Csv.CellValid` | release-011-batch2.json:7 | accepts exactly the texts that represent some value: bare, or quoted with each quote doubled |
| `Csv.RepresentsOne` | release-011-batch2.json:7 | no text represents two values |
| `Csv.DecodedSize` | release-011-batch2.json:7 | the size of the decoded value, or -1 |
| `Csv.DecodeCell` | release-011-batch2.json:7 | writes the decoded value at the front of the buffer, or leaves the buffer alone |
| `Csv.DecodeEncode` | release-011-batch2.json:7 | every encoding of every byte string is a valid cell and decodes to that string |
| `Csv.EncodeDecode` | release-011-batch2.json:7 | encoding what a cell decodes to is never longer than the cell, and doing so again changes nothing |
| `Csv.FieldsCount` | release-011-batch2.json:7 | the three-state scanner computes its recursive description |
| `Csv.JoinedCellsAreCounted` | release-011-batch2.json:7 | for every non-empty list of values and every valid delimiter, the joined encodings are counted as that many fields (quoting as in section 2 of RFC 4180) |
| `Csv.CountIsExact` | release-011-batch2.json:7 | the scanner answers n if and only if the row is a join of n fields, where a field is bare bytes and then perhaps a quoted run |
| `Csv.CountedRowIsCellsIff` | release-011-batch2.json:7 | a row counted as n fields is a join of n valid cells if and only if no quote opens after bare bytes of its field |
| `Csv.LateQuoteIsCounted` | release-011-batch2.json:7 | the concrete difference: `a"b"` is counted as one field, and is no valid cell |
| `Pgas.BlocksDoNotWrap` | release-011-batch3.json:43 | start, length and size computed in 64 bits are the unbounded ones, and none exceeds the total |
| `Pgas.BlocksTile` | release-011-batch3.json:43 | the first block starts at 0, each starts where the one before ends, the last ends at the total |
| `Pgas.BlocksAreBalanced` | release-011-batch3.json:43 | the lengths add up to the total, differ by at most one, and the block size is the largest |
| `Pgas.OwnerDoesNotWrap` | release-011-batch3.json:43 | the owner computed in 64 bits is the unbounded one, though an intermediate width may wrap |
| `Pgas.OwnerOwnsItsBlock` | release-011-batch3.json:43 | a valid rank owns an index if and only if the index lies in its block |
| `Pgas.IndexHasBlockAndOffset` | release-011-batch3.json:43 | every index has an owner and an offset within its block, as the two functions report |
| `Pgas.BlockAndOffsetHaveIndex` | release-011-batch3.json:43 | every block and offset within it locate one index, which those functions map back |
| `Pgas.BlockOwnerIsRightIff` | release-011-batch3.json:43 | the signed owner is the unbounded one if and only if that is at most 2^63-1, and is non-negative exactly when there is such an owner |
| `Pgas.OwnersAreRightIff` | release-011-batch3.json:43 | the owners of all indices are reported rightly if and only if the total or the number of ranks is at most 2^63 |
| `Pgas.LocalOffsetIsRightIff` | release-011-batch3.json:43 | the signed offset is the unbounded one if and only if the arguments are not of the largest-rank family, which the cast cannot tell from "no owner", and the rank does not own the index at an offset above 2^63-1 |
| `Pgas.FarOffsetIsNegative` | release-011-batch3.json:43 | the concrete failure: one rank, 2^63+1 indices, and the last of them comes back at -2^63 |
| `Pgas.CyclicIsABijection` | release-011-batch3.json:43 | round-robin owner and local index determine the index and the reverse |
| `Pgas.CyclicOwnerIsRightIff` | release-011-batch3.json:43 | the signed round-robin owner is right if and only if it is at most 2^63-1, and for all indices if and only if there are at most 2^63 ranks |
| `Pgas.OutOfRange` | release-011-batch3.json:43 | without ranks, and for ranks and indices out of range, every function has its guard's answer |
| `RateLimit.RefillIsSaturatedIff` | release-011-batch3.json:70 | the 64-bit refill is exact saturating arithmetic if and only if it is not the overflow corner: capacity 2^63-1, empty bucket, rate one, wait below the capacity |
| `RateLimit.RefillStaysInBucket` | release-011-batch3.json:70 | for all arguments the balance is between nothing and the capacity, and a senseless configuration yields nothing |
| `RateLimit.RefillIsAdditive` | release-011-batch3.json:70 | for every bucket, capacity and rate, also where the headroom test overflows, refilling for one wait and then another is refilling for their sum |
| `RateLimit.EventConserves` | release-011-batch3.json:70 | a covered cost is admitted and taken off exactly; a wait adds no more than what trickled in |
| `RateLimit.BalanceIsConserved` | release-011-batch3.json:70 | over every run, admitted cost and remaining balance together are at most what was there and what trickled in |
| `RateLimit.StretchIsBounded` | release-011-batch3.json:70 | over every contiguous stretch of every run, admitted cost is at most capacity plus rate times elapsed |
| `RateLimit.BoundedIffSafe` | release-011-batch3.json:70 | a configuration bounds all runs in this way if and only if its headroom test does not overflow |
| `RateLimit.DelayIsLeast` | release-011-batch3.json:70 | the advised delay is the least whole wait that brings in what is missing |
| `RateLimit.DelayAdmits` | release-011-batch3.json:70 | for all waits, a refused cost that fits the bucket is admitted exactly after the advised wait, if and only if the bucket is not in the overflow corner; there it is admitted at once |
| `RateLimit.DelayAnswers` | release-011-batch3.json:70 | for all arguments: -1 if and only if no wait brings in what is missing, otherwise the least wait that does |
| `RateLimit.ConsumeAnswers` | release-011-batch3.json:70 | a cost is refused if and only if it is negative or above the balance; otherwise what is left and the cost make up the balance |
| `Std.StdParseU64` | release-011-batch3.json:124 | succeeds exactly on numerals whose unbounded value fits 64 bits, and leaves the destination alone otherwise |
| `Std.StdFormatU64` | release-011-batch3.json:124 | writes the numeral at the front of the buffer, or leaves the buffer alone |
| `Std.NumeralIsCanonical` | release-011-batch3.json:124 | printing gives a numeral of that value without leading zeros |
| `Std.NumeralOfValue` | release-011-batch3.json:124 | printing inverts parsing on canonical numerals |
| `Std.NumeralIsShortest` | release-011-batch3.json:124 | no numeral of the same value is shorter |
| `SemverCore.SemverParseCore` | release-011-batch3.json:115 | accepts exactly the dotted triples of canonical numerals up to 2^64-1, whose values it stores; never writes past the third place |
| `SemverCore.ParsePrint` | release-011-batch3.json:115 | parsing a printed triple gives the numbers back |
| `SemverCore.PrintParse` | release-011-batch3.json:115 | printing a parsed triple gives the text back |
| `SemverCore.SemverCompareCore` | release-011-batch3.json:115 | lexicographic order of the triples; 0 when one is too short |
| `SemverCore.CoreComparisonsAgree` | internal/registry/catalog.go:66-75 | on such texts the registry's comparison is the package's comparison of the parsed triples |
| `Hex.ValueIffSymbol` | release-011-batch2.json:16 | the bytes with a value are the symbols of both cases, and no others |
| `Hex.SymbolsInOrder` | release-011-batch2.json:16 | the sixteen symbols of either case, in order |
| `Hex.HexEncode` | release-011-batch2.json:16 | writes two symbols a byte at the front of the buffer, or leaves the buffer alone |
| `Hex.HexValid` | release-011-batch2.json:16 | accepts exactly even-length texts of hexadecimal digits |
| `Hex.HexDecode` | release-011-batch2.json:16 | writes the decoded bytes at the front of the buffer, or leaves the buffer alone |
| `Hex.DecodeEncode` | release-011-batch2.json:16 | decoding inverts encoding in either case |
| `Hex.EncodeDecode` | release-011-batch2.json:16 | encoding inverts decoding up to the case of the letters |
| `Hex.HexParseU64` | release-011-batch2.json:16 | succeeds exactly when the unbounded number fits 64 bits, and leaves the destination alone otherwise |
| `Hex.HexFormatU64` | release-011-batch2.json:16 | writes the hexadecimal numeral at the front of the buffer, or leaves the buffer alone |
| `Hex.ParseFormat` | release-011-batch2.json:16 | what is printed parses back to the number, with no leading zero |
| `Hex.FormatIsShortest` | release-011-batch2.json:16 | no hexadecimal text for the number is shorter |
| `Json.JsonStringTokenValid` | release-011-batch3.json:16 | accepts exactly the string tokens of section 7 of RFC 8259, byte by byte |
| `Json.SpellUnits` | release-011-batch3.json:16 | a token has one reading as characters and escapes |
| `Json.HexDigitIff` | release-011-batch3.json:16 | the digits of a Unicode escape are exactly the bytes with a hexadecimal value |
| `Json.UnicodeIff` | release-011-batch3.json:16 | a Unicode escape is allowed if and only if it has four such digits |
| `Json.UnicodeIsOnto` | release-011-batch3.json:16 | every number of sixteen bits is meant by an escape, in both cases of its digits |
| `Json.ShortEscapes` | release-011-batch3.json:16 | the eight short escapes and what each stands for |
| `Json.PlainIff` | release-011-batch3.json:16 | the bytes that stand for themselves are those above 31 other than quote and backslash, which are those the quoter leaves alone |
| `Json.EscapesAreSpelled` | release-011-batch3.json:16 | what the quoter writes for each byte: a control is a Unicode escape whose last two digits are the byte in small hexadecimal |
| `Json.JsonNumberValid` | release-011-batch3.json:16 | accepts exactly the numbers of section 6 of RFC 8259 |
| `Json.NumberIff` | release-011-batch3.json:16 | the numbers are the texts printed from a sign, a whole part without leading zeros, and perhaps a fraction and an exponent with either letter and sign |
| `Json.ReadsIff` | release-011-batch3.json:16 | taking the longest run of digits at each place loses no number of the grammar |
| `Json.JsonStringEscapedSize` | release-011-batch3.json:16 | the size is that of the quoted text |
| `Json.JsonQuoteAscii` | release-011-batch3.json:16 | writes the quoted text at the front of the buffer, or leaves the buffer alone |
| `Json.QuotedMeansData` | release-011-batch3.json:16 | every quoted text is a string token, and its only reading stands for the quoted bytes |
| `Router.RouterPatternValid` | release-011-batch3.json:88 | accepts exactly texts of 1 to 2048 bytes with a leading slash, no forbidden byte and no two adjacent slashes |
| `Router.ValidIff` | release-011-batch3.json:88 | in terms of segments: none but perhaps the last is empty |
| `Router.RouterMatch` | release-011-batch3.json:88 | the one-pass loop holds exactly when both texts are valid, have as many segments, and each pattern segment equals its path segment or is a colon with a name against a non-empty one |
| `Router.RouterSegments` | release-011-batch3.json:88 | the number of non-empty segments of a valid path, which is all of them or all but the last; -1 for any other text |
| `Router.MatchKeepsSegments` | release-011-batch3.json:88 | a match implies equal segment counts |
| `Router.PlainRouteMatchesItself` | release-011-batch3.json:88 | a pattern without parameters matches its own text and nothing else |
| `Router.MatchesItselfIff` | release-011-batch3.json:88 | a valid pattern matches some path, and then its own text, if and only if no segment is a colon alone |

## Left out

- HTTP transport, TLS, DNS pinning, the HTTP handler, provider packages and the route constants of the registry program: input and output, or tables.
- The configuration checks at the start of `Open` in `internal/hostbridge/db.go` (lines 40-72), `checkSQL` and `sqlArgs`: independent single-branch checks before the modelled part.
- `Query` and `acquire`: Query takes the same locked section as Exec and only reads rows; acquire has no caller.
- The SQL driver: open, ping, begin, commit, rollback, close and exec are events that may fail; what they do to a database is not modelled.
- Context cancellation: transactions live in a context that outlives them. `Serve` cancels the context of each frame, so nothing is claimed of a transaction that spans frames.
- Wraparound of the 64-bit handle counter, and slices in one call that overlap.
- DbHost.Host.Close: states the effect without interference; interference is the subject of the protocol, whose steps TakeHandle and Release are.
- DbHost.Host.CloseAll: likewise, and for a list of ids in any order, as Go iterates over maps.
- gzip, tar, SHA-256 and the two manifest expressions: parameters of `BuildArchive`, assumed to be functions of their input.
- Archive.BuildArchive: which refusal a tree gets depends on the order of visiting, so only being refused is order-free, and for a tree that changes while it is walked not even that.
- Symbolic-link races, a root that is no directory, and errors of the file system during the walk: the walk is a sequence of nodes with what status and reading report.
- Archive.ArtifactCache.Get: building is a function of the directory that root and path join to, and the joining is a parameter, so a tree that changes between lookups is not modelled.
- Release fields other than version, path and yanked: they are carried along and no modelled code reads them.
- Catalog.Open: where the clashes of a package are not transitive, nothing is promised of the order of its releases, since the library sort promises nothing of a test that does not rank them; the model's own sort picks one.
- Reading and decoding the index file, with its 4 MiB limit: `Open` starts from the decoded index.
- Noqeri integer overflow: the language's documents do not say what an overflowing `i64` or `usize` operation does; the model wraps around in two's complement in `Pgas` and `RateLimit`. Buffer sizes and positions are unbounded, a length near 2^64 not being modelled.
- Json.JsonStringTokenValid: the grammar is taken byte by byte, as the code does; that bytes above 127 form UTF-8, and that surrogate escapes pair up, is not asked.
- The remaining one-line predicates of these packages, `jsonSkipSpace`, and the router's name checks: easy members.
- `package-upgrades.json`: it uses helpers that are not part of this model, and its algorithms repeat those above.
- The generators under `cmd`, the quality and advisory tables and the package metadata: text and file writing.
