# Cycles commit sync and package ordering, verified in Dafny

This project models two sequential pieces of logic from a repository that
keeps the standalone Cycles renderer and Blender's copy of it in step, and
proves properties of the models.

- **Commit sync** (`cycles_commits_sync.py`). Each history becomes an
  insertion-ordered map from a fingerprint `"<stamp> <normalised subject>"`
  to a commit hash, and a later equal fingerprint overwrites an earlier one.
  Commits whose hash is in `IGNORE_HASHES` are meant to be skipped, but as
  written the set holds `str` values and never matches a `bytes` hash, so no
  commit is skipped (see "## Findings"). The two maps are compared into two
  one-way, order-preserving lists of missing hashes. Each missing commit is
  exported as a numbered patch, and that patch is rewritten line by line by
  a two-state machine (the `do_skip` flag). The machine:
  - shortens the `Subject: [PATCH] ` line (topic dropped, capitalised, one
    final dot removed);
  - translates the `a/`/`b/` path prefixes between `intern/cycles` and `src`;
  - drops whole file sections whose `diff --git a/` path does not start
    with the accepted prefix bytes, until an accepted section header or a
    `-- ` line (there is no path-boundary check: with prefix `src`, a
    section under `srcfoo/` is kept).
- **Package build order** (`build_cycles_packages.py`). This is Kahn's
  topological sort over the registered packages:
  - a FIFO queue `S` starts with the packages that have no dependency;
  - each dequeued package's lower-cased name is removed in place (first
    occurrence) from every dependency list in `G`;
  - a list that becomes empty enqueues its package;
  - the result `L` is mapped back to the registered records by name;
  - leftover non-empty lists are reported with exit status 13.

Modules, in dependency order:

| file | module | models |
|---|---|---|
| sequences.dfy | `Sequences` | generic order and filter helpers (`Increasing`, `Select`, `SelectPositions`) |
| byte_strings.dfy | `ByteStrings` | Python `bytes` (`split`, `join`, `split(sep, 1)`, `capitalize`, `rstrip`, `replace`) |
| subjects.dfy | `Subjects` | `subject_strip` and its constants |
| patches.dfy | `Patches` | `replace_file_prefix`, `cleanup_patch` |
| commit_maps.dfy | `CommitMaps` | `IGNORE_HASHES`, `commit_map_get`, `commits_get_difference` |
| transfer.dfy | `Transfer` | `transfer_commits` |
| package_order.dfy | `PackageOrder` | the ordering at lines 1053-1075 of the package builder |

Each imperative piece of the source is an imperative Dafny `method` with the
source's loops.
- `SubjectStrip`, `ReplaceFilePrefix`, `CleanupPatch`, `CommitMapGet`,
  `CollectMissing` and `TransferCommits` work on values. Each is proved equal
  to a specification function (`StripTopic`, `RewritePath`, `Cleanup`,
  `BuildMap`, `OnlyIn`, `Transferred`), and the properties are lemmas about
  those functions. Most of them recurse from the right, so a loop invariant
  can name the function of the prefix consumed so far.
- The package ordering methods (`OrderPackages`, `Drain`, `Release`) state
  the properties of Kahn's sort directly in their contracts and loop
  invariants.
- `PackageOrder` keeps the mutable package records as a `class Node` whose
  `dependencies` field the loops update in place. `G`, `S` and `L` are
  sequences of such nodes.

Two behaviours of the code are easy to misread:
- `subject_strip` is not idempotent: `Subjects.StripTopicNotIdempotent`
  shows `"Cycles: cycles: x"` needing two applications.
- `rstrip(b".")` in the fingerprint removes every trailing dot
  (`ByteStrings.RStrip`, `CommitMaps.Fingerprint`), while the subject line of
  a patch loses at most one (`Patches.SubjectLineRewrite`).

## Model

| member | source | states |
|---|---|---|
| ByteStrings.Capitalize | cycles_commits_sync.py:58 | `bytes.capitalize`: the first byte upper-cased and every other byte lower-cased, ASCII letters only (used by `Subjects.StripTopicCases`) |
| ByteStrings.Join | cycles_commits_sync.py:71 | `b' '.join(tokens)`: the tokens with one separator between neighbours; `ByteStrings.JoinSplit` and `ByteStrings.SplitJoin` make it the inverse of `Split` |
| ByteStrings.Split | cycles_commits_sync.py:65 | `split(b' ')` always yields at least one token, and no token holds the separator |
| ByteStrings.JoinSplit | cycles_commits_sync.py:65-71 | joining the tokens of a split with the same separator gives back the original bytes |
| ByteStrings.SplitJoin | cycles_commits_sync.py:65-71 | splitting the join of separator-free tokens gives back exactly those tokens |
| ByteStrings.SplitOnce | cycles_commits_sync.py:128-129 | the two-name unpacking of `split(b' ', 1)` fails exactly when the line has no space |
| ByteStrings.SplitOnceJoins | cycles_commits_sync.py:128-129 | the two parts, joined at the separator, are the input, and the first part holds no separator |
| ByteStrings.RStrip | cycles_commits_sync.py:130 | `rstrip(b".")` keeps a prefix of the input that does not end in a dot, and every byte it removed was a dot |
| ByteStrings.ReplaceDotNewline | cycles_commits_sync.py:92 | `replace(b".\n", b"\n")` scanning left to right; its effect on a line is stated by `ByteStrings.ReplaceDotNewlineOnLine` |
| ByteStrings.ReplaceDotNewlineOnLine | cycles_commits_sync.py:92 | on a line whose only newline is last, `replace(b".\n", b"\n")` removes exactly the dot before the newline if there is one, and changes nothing else |
| Subjects.StripTopic | cycles_commits_sync.py:54-61 | `subject_strip`: the first matching skip prefix is dropped and the rest capitalised behind the common prefix; its cases are stated by `Subjects.StripTopicCases` and `Subjects.StripTopicNoMatch` |
| Subjects.FirstTopic | cycles_commits_sync.py:55-57 | finds the first skip prefix, in tuple order, that matches after the common prefix, and no earlier one matches |
| Subjects.StripTopicCases | cycles_commits_sync.py:55-60 | when prefix `i` is the first match, the result is `common + capitalize(rest after common + prefix i)` |
| Subjects.StripTopicNoMatch | cycles_commits_sync.py:54-61 | when no `common + prefix` matches, the subject comes back unchanged, even if it starts with `common` |
| Subjects.StripTopicNotIdempotent | cycles_commits_sync.py:54-61 | a subject with two topics loses one per call: the function is not idempotent |
| Subjects.SubjectStrip | cycles_commits_sync.py:54-61 | the loop with `break` returns the first-match rewrite of the subject (`StripTopic`) |
| Patches.RewriteToken | cycles_commits_sync.py:67-70 | one token passed through both `a/`/`b/` tests of the inner loop; its cases are stated by `Patches.RewriteTokenCases` |
| Patches.RewriteTokenCases | cycles_commits_sync.py:67-70 | a token `a/<prefix><rest>` becomes `a/<replace><rest>`, likewise `b/`, and every other token stays byte for byte |
| Patches.RewriteTokenNoBoundary | cycles_commits_sync.py:69-70 | no path-boundary check: with prefix `src` the token `a/srcfoo` becomes `a/intern/cyclesfoo` |
| Patches.SectionNoBoundary | cycles_commits_sync.py:93-98 | no path-boundary check on file sections either: with prefix `src`, the one-line patch `diff --git a/srcfoo/x.c b/srcfoo/x.c` is kept, rewritten like an accepted header |
| Patches.LoneAcceptedHeader | cycles_commits_sync.py:93-98 | a patch made of one header whose `diff --git a/` path starts with the accepted prefix bytes cleans to that header, rewritten |
| Patches.RewriteTokenRoundTrip | cycles_commits_sync.py:64-71 | rewriting a matching token from `p` to `q` and back from `q` to `p` gives back the token |
| Patches.RewritePath | cycles_commits_sync.py:64-71 | `replace_file_prefix`: split at spaces, rewrite each token alone, join with spaces; stated by `Patches.RewritePathTokens` and `Patches.RewritePathIdentity` |
| Patches.RewritePathTokens | cycles_commits_sync.py:64-71 | with a space-free replacement, the token count is kept, token `i` of the result is token `i` rewritten alone, and tokens without the prefix stay |
| Patches.RewritePathIdentity | cycles_commits_sync.py:64-71 | a path none of whose tokens carries the prefix comes back byte for byte |
| Patches.ReplaceFilePrefix | cycles_commits_sync.py:64-71 | the in-place token loop returns the path with each token rewritten alone (`RewritePath`) |
| Patches.RewriteLine | cycles_commits_sync.py:86-102 | the rewrite the loop applies to one line by its first matching prefix: subject line, accepted header, end marker, `---`/`+++` line, or none |
| Patches.NextSkip | cycles_commits_sync.py:86-100 | the new `do_skip`: a rejected header sets it, an accepted header and the end marker clear it, other lines leave it |
| Patches.Run | cycles_commits_sync.py:83-105 | `do_skip` and `clean_content` after the loop has consumed the lines, one line at a time from the left |
| Patches.Cleanup | cycles_commits_sync.py:83-105 | the cleaned lines, the output part of `Run` |
| Patches.CleanupSelects | cycles_commits_sync.py:83-105 | the cleaned patch is every line rewritten by itself, filtered to the lines after which `do_skip` is false |
| Patches.CleanupKeeps | cycles_commits_sync.py:83-105 | the cleaned patch is an in-order subsequence of the rewritten lines: it keeps the line at position `k`, rewritten, exactly when `do_skip` is false just after line `k` |
| Patches.RejectedSectionDropped | cycles_commits_sync.py:93-105 | a `diff --git` line that does not start with `diff --git a/` followed by the accept prefix bytes, and every line after it up to the next accepted header or `-- ` line, are dropped, and the machine stays skipping |
| Patches.AcceptedSectionEmitted | cycles_commits_sync.py:93-98 | an accepted file-section header is always emitted, with its paths rewritten, and turns skipping off |
| Patches.EndMarkerEmitted | cycles_commits_sync.py:99-100 | a line starting with `-- ` is always emitted unchanged and turns skipping off |
| Patches.HunkLineLeaksFromRejectedSection | cycles_commits_sync.py:99-100 | a hunk line `-- item` inside a rejected section is emitted, because it looks like the end marker |
| Patches.SubjectLineRewrite | cycles_commits_sync.py:86-92 | on the subject line, at most the one dot right before the final newline is removed after topic stripping |
| Patches.RewriteSubjectLine | cycles_commits_sync.py:86-92 | the subject line's rewrite: the topic behind `Subject: [PATCH] ` stripped by `subject_strip`, then `.\n` replaced by `\n` (its effect is stated by `Patches.SubjectLineRewrite`) |
| Patches.SubjectLineExample | cycles_commits_sync.py:86-92 | `Subject: [PATCH] Cycles: Fix foo.` becomes `Subject: [PATCH] Fix foo` |
| Patches.SubjectExampleTopic | cycles_commits_sync.py:89 | the topic `Cycles: ` is dropped after the subject prefix and the remainder keeps its capitalisation |
| Patches.SubjectExampleDot | cycles_commits_sync.py:92 | the final `.\n` of that subject line becomes `\n` |
| Patches.NoFileSectionKeepsAll | cycles_commits_sync.py:83-105 | a patch without a `diff --git` line never skips: every line is emitted, each rewritten by itself |
| Patches.CleanupShorter | cycles_commits_sync.py:83-105 | the cleaned patch never has more lines than the input |
| Patches.SlashCheckInert | cycles_commits_sync.py:75-76 | as written, the opening asserts accept every non-empty prefix, and the absolute prefix `/src` passes although it is not relative |
| Patches.SlashCheckAsWritten | cycles_commits_sync.py:75-76 | the opening asserts as written: a non-empty prefix whose first byte, an `int`, differs from the `bytes` value `b'/'` (always true, see `Patches.SlashCheckInert`) |
| Patches.RelativePrefix | cycles_commits_sync.py:75-76 | the corrected check the asserts intend: a non-empty prefix whose first byte is not `/` (what it guarantees: `Patches.RelativePrefixHeader`) |
| Patches.RelativePrefixHeader | cycles_commits_sync.py:75-78 | with a relative accept prefix, an accepted header names a path directly under `a/`, never `a//` |
| Patches.CleanupPatch | cycles_commits_sync.py:74-105 | the line loop returns exactly the lines of the two-state machine (`Cleanup`), given the non-empty prefixes the asserts demand |
| CommitMaps.Put | cycles_commits_sync.py:135 | `commit_map[k] = v` sets the value, keeps an existing key's position, and appends a new key at the end |
| CommitMaps.IgnoreSetIsInert | cycles_commits_sync.py:16-27 | as written, the `str` ignore set contains no `bytes` hash, so the hashes it skips are none |
| CommitMaps.IgnoreHashesSameCommits | cycles_commits_sync.py:16-27 | the set as written (`IgnoreHashesAsWritten`, `str` values) and the corrected set (`IgnoreHashes`, `bytes`) name the same eight commits |
| CommitMaps.EffectiveIgnoreAsWritten | cycles_commits_sync.py:133 | the `bytes` hashes that the test `commit_sha in IGNORE_HASHES` skips as written (none, by `CommitMaps.IgnoreSetIsInert`) |
| CommitMaps.IgnoredCommitStillMapped | cycles_commits_sync.py:133-135 | as written, a listed commit is still mapped to its fingerprint; with the set held as `bytes` it is skipped |
| CommitMaps.ParseLogLine | cycles_commits_sync.py:128-129 | the two unpackings `split(b' ', 1)` into hash, stamp and subject, or `None` where Python raises; stated by `CommitMaps.ParseLogLineSound` and `CommitMaps.ParseFormatRoundTrip` |
| CommitMaps.ParseLogLineSound | cycles_commits_sync.py:128-129 | a parsed line is hash, stamp and subject joined by single spaces, with no space in the hash or the stamp |
| CommitMaps.ParseFormatRoundTrip | cycles_commits_sync.py:119-129 | parsing inverts the `%H %at %s` format for a hash and a stamp without spaces |
| CommitMaps.Fingerprint | cycles_commits_sync.py:130-131 | the key `stamp + b" " + subject_strip(b"", subject).rstrip(b".")`; stated by `CommitMaps.FingerprintShape` and `CommitMaps.FingerprintExample` |
| CommitMaps.FingerprintShape | cycles_commits_sync.py:130-131 | the fingerprint starts with the stamp and one space and never ends in a dot |
| CommitMaps.FingerprintExample | cycles_commits_sync.py:130-131 | `Fix memory leak.` and `Fix memory leak` at stamp 200 get the same fingerprint `200 Fix memory leak` |
| CommitMaps.Classify | cycles_commits_sync.py:127-135 | a malformed line is reported as itself, and a line that is inserted never carries an ignored hash |
| CommitMaps.Fold | cycles_commits_sync.py:126-135 | an error is one of the bad lines, and every entry of the map comes from an insertion of that key and hash |
| CommitMaps.BuildMap | cycles_commits_sync.py:125-136 | no value of the built map is an ignored hash, and an error names a malformed line of the log |
| CommitMaps.FoldErrors | cycles_commits_sync.py:126-129 | the fold fails exactly when some classified line is bad |
| CommitMaps.BuildMapErrors | cycles_commits_sync.py:126-129 | the loop raises exactly when some line of the log is non-empty and lacks a space |
| CommitMaps.FoldLastWriteWins | cycles_commits_sync.py:135 | an insertion not followed by another of the same key determines that key's value |
| CommitMaps.LastWriteWins | cycles_commits_sync.py:125-136 | a fingerprint maps to the hash of the last log line that produced it |
| CommitMaps.KeysFromLog | cycles_commits_sync.py:125-136 | every key of the map is the fingerprint of a non-ignored line of the log, and maps to that line's hash |
| CommitMaps.ClassifyLogLine | cycles_commits_sync.py:127-135 | a well-formed log line inserts its fingerprint and hash, unless the hash is ignored |
| CommitMaps.CollidingCommitsCollapse | cycles_commits_sync.py:130-135 | two commits of the same second whose subjects normalise alike collapse into one entry holding the later hash |
| CommitMaps.CommitMapGet | cycles_commits_sync.py:115-136 | for a given ignore set, the loop over the log's lines returns the map (or the first malformed line) that `BuildMap` defines; the code as written is the run with `EffectiveIgnoreAsWritten()`, which is empty (`CommitMaps.IgnoreSetIsInert`), and the intended run is the one with `IgnoreHashes` |
| CommitMaps.ErrorPersists | cycles_commits_sync.py:126-129 | once a malformed line has been met, the rest of the log does not change the outcome |
| CommitMaps.MissingKeys | cycles_commits_sync.py:144-146 | a key is in the list exactly when it is a key of the first map and not of the other |
| CommitMaps.MissingKeysSelects | cycles_commits_sync.py:144-146 | the missing keys are the keys filtered to those the other map lacks |
| CommitMaps.MissingKeysInOrder | cycles_commits_sync.py:144-146 | the missing keys are an in-order subsequence of the keys: exactly the positions whose key the other map lacks, increasing |
| CommitMaps.MissingKeysDistinct | cycles_commits_sync.py:142-153 | each missing fingerprint appears once |
| CommitMaps.DifferencePartition | cycles_commits_sync.py:142-153 | a key in both maps is in neither list, a key in one map only is in exactly that map's list, and both lists are repetition-free |
| CommitMaps.MissingNone | cycles_commits_sync.py:142-153 | when every key is in the other map, nothing is missing |
| CommitMaps.SameMapNoDifference | cycles_commits_sync.py:142-153 | a map compared with itself (two maps built from the same log) has nothing to transfer |
| CommitMaps.IgnoredNeverTransferred | cycles_commits_sync.py:125-153 | with maps built with an ignore set, no hash of either difference list is in that set |
| CommitMaps.OnlyIn | cycles_commits_sync.py:142-153 | one list of `commits_get_difference`: the hashes of the first map's keys that the second lacks |
| CommitMaps.OnlyInOrder | cycles_commits_sync.py:143-146 | that list holds, in the first map's insertion order, the hash of each key the second map lacks, and no other |
| CommitMaps.CollectMissing | cycles_commits_sync.py:143-146 | one loop of the comparison returns `OnlyIn(a, b)`: by `CommitMaps.OnlyInOrder`, the hashes of the keys `b` lacks, in `a`'s key order |
| CommitMaps.CommitsGetDifference | cycles_commits_sync.py:142-153 | returns `OnlyIn(cycles, blender)` and `OnlyIn(blender, cycles)`: the Cycles-only hashes in Cycles order and the Blender-only hashes in Blender order (`CommitMaps.OnlyInOrder`) |
| Transfer.PrefixesFor | cycles_commits_sync.py:174-177 | both prefixes of either direction are relative and non-empty |
| Transfer.DirectionsMirror | cycles_commits_sync.py:174-177 | the two directions swap the accepted and the replacing prefix |
| Transfer.TokenRoundTrip | cycles_commits_sync.py:174-177 | a path token moved to the other repository and back is unchanged |
| Transfer.Exported | cycles_commits_sync.py:174-177 | the patch file written for one hash: its number, its hash and the exported lines cleaned with the prefixes of the direction |
| Transfer.Transferred | cycles_commits_sync.py:158-178 | the patches written are numbered 1, 2, ... in the order of the hashes, each cleaned for the destination, and a failed export stops the run at that hash |
| Transfer.TransferredPrefix | cycles_commits_sync.py:162-173 | the patches of a shorter hash list are a prefix of those of a longer one, and nothing more is written after a failure |
| Transfer.TransferCommits | cycles_commits_sync.py:158-178 | the loop writes exactly the patches `Transferred` defines and reports whether an export failed |
| PackageOrder.Lower | build_cycles_packages.py:1062 | `n.name.lower()`, of the same length as the name, ASCII letters lower-cased |
| PackageOrder.LowerAll | build_cycles_packages.py:1056 | `[d.lower() for d in p.dependencies]`, one lowered name per dependency |
| PackageOrder.LowerIdempotent | build_cycles_packages.py:1062 | lower-casing a name twice is lower-casing it once |
| PackageOrder.RemoveFirst | build_cycles_packages.py:1062-1063 | `if x in s: s.remove(x)` leaves a list without `x` unchanged, and otherwise removes one element |
| PackageOrder.RemoveFirstMultiset | build_cycles_packages.py:1063 | the removal takes away one occurrence of the name and nothing else |
| PackageOrder.RemoveFirstIsFirst | build_cycles_packages.py:1063 | it is the first occurrence that goes, and the elements before and after it stay in order |
| PackageOrder.RemoveEach | build_cycles_packages.py:1058-1063 | a dependency list after the names dequeued so far have each been removed once, in order; stated by `PackageOrder.RemoveEachMultiset` and `PackageOrder.RemoveEachEmpty` |
| PackageOrder.RemoveEachMultiset | build_cycles_packages.py:1058-1063 | removing the dequeued names one by one leaves the multiset difference of the dependencies and those names |
| PackageOrder.RemoveEachEmpty | build_cycles_packages.py:1064 | a dependency list is emptied exactly when the names removed cover it, with multiplicity |
| PackageOrder.Roots | build_cycles_packages.py:1054 | the positions of the packages with no dependency, below a bound; stated by `PackageOrder.RootsSpec` |
| PackageOrder.RootsSpec | build_cycles_packages.py:1054 | the initial queue holds, once each and in strictly increasing registration order, exactly the packages with an empty dependency list |
| PackageOrder.NameTable | build_cycles_packages.py:1067 | every registered name is a key, and each key maps to a package of that name |
| PackageOrder.NameTableFrom | build_cycles_packages.py:1067-1068 | every entry of the table is one of the registered packages |
| PackageOrder.NameTableLast | build_cycles_packages.py:1067 | a name maps to the last package registered under it |
| PackageOrder.NameTableDistinct | build_cycles_packages.py:1067-1068 | with distinct names, the reorder returns the original records |
| PackageOrder.IncompleteUpTo | build_cycles_packages.py:1070 | every package reported as incomplete has a non-empty remaining dependency list |
| PackageOrder.IncompleteEmpty | build_cycles_packages.py:1070-1071 | nothing is reported exactly when every remaining list is empty |
| PackageOrder.MixedCaseDependencyNeverMet | build_cycles_packages.py:1055-1063 | a dependency written with an upper-case letter is never met, since only lower-cased names are removed and `G`'s lists are never lower-cased |
| PackageOrder.CopyAll | build_cycles_packages.py:1053 | `G` holds one fresh copy of each package, with its name and dependencies, each at its own position |
| PackageOrder.CopyRoots | build_cycles_packages.py:1054-1056 | `S` holds fresh copies, with the same names and empty lists, of exactly the initial queue |
| PackageOrder.LowerQueued | build_cycles_packages.py:1055-1056 | lower-casing the lists of the initial queue leaves them empty |
| PackageOrder.ReleaseOne | build_cycles_packages.py:1062-1064 | the list loses the first occurrence of the key, and reports empty exactly when it was the one-element list of the key |
| PackageOrder.Emptied | build_cycles_packages.py:1061-1065 | the positions, in `G`'s order, whose list the inner loop empties: those whose list is the key alone |
| PackageOrder.EmptiedSpec | build_cycles_packages.py:1061-1065 | those positions are strictly increasing, hence repetition-free, and are exactly the ones whose list is the key alone |
| PackageOrder.ReleaseStep | build_cycles_packages.py:1061-1065 | one inner-loop turn updates that node's list; the queue gains that node, and the emptied positions become `Emptied(deps, key, mi + 1)`, exactly when its list was the key alone |
| PackageOrder.Release | build_cycles_packages.py:1061-1065 | every list in `G` loses the first occurrence of the key, and the nodes enqueued, once each and in strictly increasing `G` order, are exactly those whose list was the key alone |
| PackageOrder.DequeueKeepsOrder | build_cycles_packages.py:1059-1060 | appending a dequeued package, whose list is empty, to `L` keeps `L` in dependency order |
| PackageOrder.ReleaseKeepsLists | build_cycles_packages.py:1061-1065 | after the inner loop each list is the original less the names so far, and the packages queued so far are exactly those with empty lists |
| PackageOrder.DequeueAndRelease | build_cycles_packages.py:1058-1065 | one outer turn keeps `L` topological, the lists equal to the originals less `L`'s names, and the queued positions repetition-free |
| PackageOrder.DrainStep | build_cycles_packages.py:1058-1065 | one turn of `while len(S)>0` dequeues the head into `L` and keeps every invariant of the sort |
| PackageOrder.Drain | build_cycles_packages.py:1057-1065 | when the queue runs dry, `L` is repetition-free, in dependency order, contains the initial queue, and `G`'s lists are the originals less `L`'s lower-cased names |
| PackageOrder.NameIndex | build_cycles_packages.py:1067 | the dict comprehension builds the name table |
| PackageOrder.Reorder | build_cycles_packages.py:1068 | each element of `L` is replaced by the registered record of its name, in `L`'s order |
| PackageOrder.Leftovers | build_cycles_packages.py:1070 | reports, in registration order, each package whose list in `G` is still non-empty, with that list |
| PackageOrder.OrderOutcome | build_cycles_packages.py:1070-1075 | a package is ordered exactly when its dependencies are covered by `L`'s names, and nothing is incomplete exactly when every package was ordered |
| PackageOrder.OrderPackages | build_cycles_packages.py:1053-1075 | the order is repetition-free, topological and contains the initial queue; a package is in it exactly when its dependencies are met; the exit code is 13 exactly when some package was left out |

## Left out

- `main` (cycles_commits_sync.py:181-199): argument handling and printing.
- The `git log` call (cycles_commits_sync.py:116-124) is a parameter. `CommitMapGet` takes the bytes git prints, and a failing call is not modelled.
- The `git format-patch` call and the path it prints (cycles_commits_sync.py:164-173) are a parameter. `TransferCommits` takes a function from a hash and a patch number to the lines of the written file, or to `None` when git fails.
- File reading and writing in `cleanup_patch` (cycles_commits_sync.py:80-81, 107-108) are left out. `CleanupPatch` maps lines to lines, with lines as `readlines` yields them.
- The starting revisions `CYCLES_START_COMMIT` and `BLENDER_START_COMMIT` (cycles_commits_sync.py:30-31) are left out: they only shape the `git log` command line.
- Patches.CleanupPatch: its precondition is the asserts as written (cycles_commits_sync.py:75-76), which demand only non-empty prefixes because they compare an `int` with `bytes`. The intended "relative prefix" check is `RelativePrefix`, which both transfer directions satisfy (`Transfer.PrefixesFor`).
- In build_cycles_packages.py, everything except lines 1053-1075 is left out:
  - argument parsing and folders;
  - downloads and extraction;
  - the progress reporter;
  - the per-package build steps;
  - the fetch, patch and build loop at 1077-1084.
- Only the `name` and `dependencies` fields of `Package` (build_cycles_packages.py:23-37) are modelled. The others do not take part in the ordering.
- `copy.deepcopy` (build_cycles_packages.py:1053-1054) is modelled as allocating fresh `Node` objects with the same name and dependency list.
- The printing of the incomplete packages (build_cycles_packages.py:1072-1074) is the returned list `incomplete`, and `sys.exit(13)` is the returned `exitCode`.
- PackageOrder.Lower: lower-cases ASCII letters only, where Python's `str.lower` also maps non-ASCII letters.
- PackageOrder.OrderPackages: `ordered` holds the registered records as values; that they are the same objects as those in `packages` (aliasing) is not stated.
- PackageOrder.Drain: the queue `S` is ghost-tracked by the positions it copies; `L` holding either an `S` copy or a `G` node is not distinguished, since both carry the same name.
- Bytes are characters below 256 and `capitalize` is ASCII-only, as Python's `bytes.capitalize` is.

## Findings

| source | as written | input that shows it | evidently intended | confidence | as-written member | corrected member |
|---|---|---|---|---|---|---|
| cycles_commits_sync.py:16-27 | `IGNORE_HASHES` holds `str` values while `commit_sha` is `bytes`, so `commit_sha in IGNORE_HASHES` is never true in Python 3 and no commit is ignored | a log line `7e690198b16c21158e428d3324e6e7f3b102f674 100 Fix x` is still mapped to its fingerprint | the listed commits are skipped (a set of `bytes` literals) | not executed | CommitMaps.IgnoreSetIsInert | CommitMaps.IgnoredCommitStillMapped |
| cycles_commits_sync.py:75-76 | `accept_prefix[0] != b'/'` compares an `int` with `bytes`, which is always unequal, so the assertion only fails on an empty prefix | the absolute prefix `/src` passes | reject a prefix starting with `/` | not executed | Patches.SlashCheckInert | Patches.RelativePrefixHeader |

For the first finding:
- `CommitMaps.IgnoredCommitStillMapped` exhibits the as-written behaviour, through `EffectiveIgnoreAsWritten`.
- The rest of the model uses the corrected set `CommitMaps.IgnoreHashes` of `bytes`.
- `CommitMaps.CommitMapGet` takes the ignore set as a parameter: the code as written is `CommitMapGet(log, EffectiveIgnoreAsWritten())`, the corrected run `CommitMapGet(log, IgnoreHashes)`, and `CommitMaps.BuildMap` and `CommitMaps.IgnoredNeverTransferred` prove that ignored hashes are never mapped or transferred.

For the second:
- `Patches.SlashCheckAsWritten` is the check as written, and `Patches.RelativePrefix` is the corrected one.
- `Transfer.PrefixesFor` proves both directions' prefixes relative.
- `Patches.RelativePrefixHeader` proves what a relative prefix guarantees.
