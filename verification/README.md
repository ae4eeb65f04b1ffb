# GambiarraCDN file utilities in Dafny

A model of the two command-line helpers of GambiarraCDN, with proofs of what
they promise.

**The content-hash renamer** (`hash_renamer.py`) processes a list of files
that is fixed before the first move. For each file it computes a hex digest
of the bytes and keeps the first `length` characters (the short digest). It
skips the file when its stem already ends with `sep + short`. Otherwise it
moves the file to `stem + sep + short + suffix` in the same directory. If that
name already holds the same bytes, it deletes the source instead. If the name
holds something else, or the comparison failed, it takes the first free
`"<target stem>-<i><target suffix>"` with i = 1, 2, …. A dry run reports the
plan and changes nothing. A failed digest or a failed move is reported, and
the next file is processed.

**The image lister** (`list_images.py`) returns the sorted bare names of the
regular files directly inside a directory. It raises FileNotFoundError when the
directory is missing, and lets the OSError through when the path is not a
directory, cannot be listed, or holds an entry that cannot be inspected. `write_list` writes the names one per line, each ending
in a newline.

Layout:

- `wrappers.dfy`: `Option` and `Result`.
- `pure_paths.dfy` (module `PurePaths`): the parts of `pathlib` the renamer
  uses. A path is a parent plus a name. `Suffix` runs from the last dot when
  that dot is neither the first nor the last character; `Stem` is the rest.
  This is the split `pathlib` makes up to Python 3.13; Python 3.14 changed how
  a single trailing dot is handled, and the trailing-dot results below assume
  the earlier behaviour.
- `decimal.dfy` (module `Decimal`): `str(i)` for the collision index, with
  its inverse.
- `hash_renamer.dfy` (module `HashRenamer`): the filesystem as
  `map<Path, Node>`, where a node is a regular file with its bytes or a
  directory. Also the per-file `Step`, the collision search and the `Run`
  over all files.
- `renamer_properties.dfy` (module `RenamerProperties`): skipping,
  duplicate collapse, collision numbering, content preservation, sequential
  processing, re-tagging, and the worked examples.
- `string_order.dfy` (module `StringOrder`): Python's `str` ordering and
  `sorted` over a set of names.
- `image_list.dfy` (module `ImageList`): the listing, the text written for
  it, and reading that text back.

The digest is a function parameter with no definition (`Config.hash`).
`None` means the hash library does not know the algorithm's name. The code
calls `hashlib.new` inside the per-file `try` (hash_renamer.py:33-37), and
nothing checks the algorithm's name at startup. An unknown algorithm therefore
makes every file report a read error, and the run still completes.

Each I/O failure the code catches is a flag on the file's `Job`:
`readFails` (lines 33-37), `compareFails` (lines 46-53) and `moveFails`
(lines 69-72). The `try` of lines 46-53 also holds `p.unlink()` (line 50). If
the bytes are equal but the delete raises, the code falls through to the
numbered search and moves the identical file to a numbered name. The model
covers this case with `compareFails`, which takes the same path. A directory sitting at the tagged name counts as existing, and
reading it fails, so the numbered search runs. This matches what `exists()`
and `read_bytes()` do.

The collision candidates are built from the tagged path's own stem and
suffix (`newp.stem`, `newp.suffix`, hash_renamer.py:55-60), not from the
original name's. They equal `stem + sep + short + "-" + i + suffix` only when
the tagged name splits back at the original suffix (`TaggedStem` gives the
conditions).

The code does not validate `--length` (hash_renamer.py:38, 80): `0` gives an
empty short digest, and a value larger than the digest gives the whole digest.
`ShortDigest` follows the code.

Re-tagging is a no-op only under conditions. Re-processing a freshly tagged
file skips it (`RetagIsNoop`) in two cases. Either the original name has a
suffix. Or the separator and short digest are dot-free and the name does not
end with a dot. A name ending in a dot, such as `a.`, is tagged to `a.-0`,
whose suffix is `.-0`. A second run then tags it again (`TrailingDotIsRetagged`).

## Model

| member | source | states |
|---|---|---|
| PurePaths.RFind | hash_renamer.py:23 | the index found holds the dot and no later index does; -1 exactly when there is no dot |
| PurePaths.Suffix | hash_renamer.py:23 | the suffix is empty exactly when the name has no interior last dot; otherwise it is a dot followed by at least one dot-free character, and it is a tail of the name |
| PurePaths.Stem | hash_renamer.py:23 | stem followed by suffix gives back the name; a non-empty name has a non-empty stem |
| PurePaths.TagBeforeSuffix | hash_renamer.py:22-23 | inserting any tag between stem and a non-empty suffix keeps the suffix and makes `stem + tag` the new stem |
| PurePaths.TagWithoutSuffix | hash_renamer.py:22-23 | appending a dot-free tag to a suffix-less name that does not end in a dot leaves a suffix-less name |
| PurePaths.TrailingDotAbsorbsTag | hash_renamer.py:22-23 | a name of two or more characters ending in a dot has no suffix, but after appending a non-empty dot-free tag the dot opens the suffix `"." + tag`, and the stem is the name without its dot |
| PurePaths.TaggedStem | hash_renamer.py:22-23 | when the name has a suffix, or the tag is dot-free and the name does not end in a dot, the tagged name's stem is `stem + tag` and ends with the tag |
| Decimal.Show | hash_renamer.py:60 | `str(i)` is a non-empty string of decimal digits with no leading zero (its first digit is `0` only for 0); `ParseShow` gives its inverse |
| Decimal.ParseShow | hash_renamer.py:60 | reading back `str(i)` gives i |
| Decimal.ShowInjective | hash_renamer.py:60 | different indices have different decimal texts |
| HashRenamer.ShortDigest | hash_renamer.py:38 | the short digest is a prefix of the full digest, of length `length` or of the whole digest when it is shorter |
| HashRenamer.TargetPath | hash_renamer.py:22-23 | the tagged path is in the source's directory; its name is as long as the name plus separator plus short digest, and it ends with the original suffix |
| HashRenamer.TargetIsNotSource | hash_renamer.py:39-43 | once the skip test fails, the tagged path differs from the source |
| HashRenamer.Numbered | hash_renamer.py:55-60 | the candidate for index i is in the tagged path's directory, starts with the tagged stem and "-", ends with the tagged suffix, and is one character plus the digits of i longer than the tagged name |
| HashRenamer.NumberedInjective | hash_renamer.py:60 | distinct indices give distinct candidate paths |
| HashRenamer.CandidatesBounded | hash_renamer.py:59-61 | a finite store that holds candidates 1..n has at least n entries, so the search ends |
| HashRenamer.FindFree | hash_renamer.py:57-62 | the search resumed at i returns an index at or above i whose candidate is absent, and every candidate below it is present |
| HashRenamer.FreeIndex | hash_renamer.py:55-62 | the index chosen is the least i >= 1 whose candidate `"<stem>-<i><suffix>"` is free |
| HashRenamer.Destination | hash_renamer.py:45-62 | the destination is never an existing path; it is the tagged path itself when that is free |
| HashRenamer.MoveTo | hash_renamer.py:70 | a move onto a free name gives the destination the source's node and leaves every other entry alone |
| HashRenamer.Place | hash_renamer.py:45-72 | after the skip test: the source is dropped exactly when the tagged path exists, holds the same bytes and the comparison works; otherwise the file moves to a free path, and the move is reported failed exactly when it is attempted (no dry run) and raises; a dry run or failed move changes nothing |
| HashRenamer.Step | hash_renamer.py:32-72 | a read failure happens exactly when the source cannot be hashed; once a move is planned it is reported failed exactly when it is attempted and raises; skips and failures change nothing; a move never overwrites and stays in the directory; only the source and the destination change |
| HashRenamer.Run | hash_renamer.py:32 | one outcome per listed file; a dry run leaves the store unchanged |
| RenamerProperties.SkipsTaggedFile | hash_renamer.py:39-41 | a readable file whose stem ends with its tag is reported as already hashed and nothing changes |
| RenamerProperties.MovesToFreeTarget | hash_renamer.py:43-72 | an untagged file whose tagged path is free is moved there (or, in a dry run, planned there with no change); when the move raises it is reported failed and nothing changes |
| RenamerProperties.CollapsesDuplicate | hash_renamer.py:45-51 | when the tagged path already holds the same bytes, the source is deleted (unless dry run) and the tagged file is left untouched |
| RenamerProperties.NumbersOnCollision | hash_renamer.py:45-72 | when the tagged path holds different bytes or the comparison failed, the destination is the least free numbered candidate, and the move is reported failed exactly when it is attempted and raises |
| RenamerProperties.StepKeepsEveryContent | hash_renamer.py:45-72 | every node stored before a step is still stored at some path after it |
| RenamerProperties.RunKeepsEveryContent | hash_renamer.py:32-72 | every node stored before a run is still stored at some path after it |
| RenamerProperties.RunIsSequential | hash_renamer.py:32-37 | the k-th file is stepped against the store left by the files before it, whether or not they failed, and the run continues from there |
| RenamerProperties.UnknownAlgorithmChangesNothing | hash_renamer.py:33-37 | with an algorithm the hash library does not know, every file reports a read error and the store is unchanged |
| RenamerProperties.TagStaysAtStemEnd | hash_renamer.py:22-23 | when the name has a suffix, or the separator and short digest are dot-free and the name does not end in a dot, the tagged name's stem ends with `sep + short` |
| RenamerProperties.TaggedNameIsSkipped | hash_renamer.py:39-41 | a file at the tagged name of a name, with the same short digest, is skipped or unreadable, and nothing changes, when that name has a suffix, or the separator and short digest are dot-free and the name does not end in a dot |
| RenamerProperties.RetagIsNoop | hash_renamer.py:22-43 | after a plain move to the tagged path, processing the new name changes nothing, when the name has a suffix, or the separator and short digest are dot-free and the name does not end in a dot |
| RenamerProperties.TrailingDotFirstRun | hash_renamer.py:22-43 | `a.` with short digest `0` is moved to `a.-0` |
| RenamerProperties.TrailingDotSecondRun | hash_renamer.py:22-43 | `a.-0` is not recognised as tagged and is moved to `a-0.-0` |
| RenamerProperties.TrailingDotIsRetagged | hash_renamer.py:22-43 | the two runs together: a name ending in a dot is tagged twice |
| RenamerProperties.PhotoIsTaggedOnce | hash_renamer.py:22-43 | `photo.png` holding "abc" becomes `photo-ba7816bf.png`, and a second run skips it |
| StringOrder.BelowReflexive | list_images.py:8 | every string is at or below itself in Python's order |
| StringOrder.BelowAntisymmetric | list_images.py:8 | two strings each at or below the other are equal |
| StringOrder.BelowTransitive | list_images.py:8 | Python's string order is transitive |
| StringOrder.BelowTotal | list_images.py:8 | any two strings are comparable |
| StringOrder.LeastExists | list_images.py:8 | a finite non-empty set of names has a least element |
| StringOrder.SortSet | list_images.py:8 | the sorted result is strictly ascending and holds exactly the set's elements |
| StringOrder.StrictlySortedUnique | list_images.py:8 | two strictly ascending sequences with the same elements are equal |
| ImageList.ListImages | list_images.py:5-8 | a missing path gives FileNotFound, a non-directory gives NotADirectory, a directory that cannot be listed or holds an entry that cannot be inspected gives AccessFailed, and any other directory gives a strictly ascending list of exactly its regular-file names |
| ImageList.ListingIsDetermined | list_images.py:8 | for a directory whose entries can all be inspected, any strictly ascending list of exactly the file names is the listing, whatever order the directory yields |
| ImageList.Join | list_images.py:12 | the joined text is empty for no names and otherwise starts with the first name; `SplitLines` and `SplitJoined` show it is undone by splitting |
| ImageList.Render | list_images.py:11-12 | no names give the empty text; otherwise the text ends with a newline |
| ImageList.RenderIsTerminated | list_images.py:12 | the joined text plus the final newline is each name followed by exactly one newline |
| ImageList.SplitLines | list_images.py:12 | splitting yields at least one piece, no piece holds a newline, and joining the pieces with newlines gives back the text |
| ImageList.SplitSingleLine | list_images.py:12 | a text without a newline splits into itself alone |
| ImageList.SplitJoined | list_images.py:12 | splitting newline-free pieces joined by newlines gives back the pieces |
| ImageList.TerminatedIsJoin | list_images.py:12 | the names each followed by a newline are the names plus one empty piece, joined by newlines |
| ImageList.SplitAfterLine | list_images.py:12 | splitting text that starts with a newline-free line and a newline peels off that line |
| ImageList.SplitTerminated | list_images.py:12 | splitting the written text gives the names plus one final empty piece |
| ImageList.ReadBackRendered | list_images.py:12 | splitting the written text on newlines and dropping the last piece gives back the names, when no name holds a newline |

## Left out

- Hashing itself (hash_renamer.py:14-19): the algorithms, and reading in 8192-byte chunks. The digest is a function parameter with no definition. The worked example assumes its value on "abc".
- Directory traversal (hash_renamer.py:27-30): `rglob`, `iterdir`, `is_file` and symlinks. The renamer takes its file list as an input sequence, fixed before processing.
- Argument parsing, the directory check with `sys.exit(1)`, and every printed message (hash_renamer.py:75-94; list_images.py:15-36). An outcome value stands in for each report.
- Writing the list file (list_images.py:12): only the text is modelled, not its encoding or the disk write.
- Read errors during comparison, and failed moves: each is a flag on the file's job, not a modelled cause.
- Step: `exists()` is map membership and never raises. In the code, `newp.exists()` and `candidate.exists()` (hash_renamer.py:45, 59) sit outside every `try`; an error other than "not found" (a tagged name over the filesystem's name-length limit, say) ends the whole run there, leaving the remaining files unprocessed, while `Run` gives every file an outcome.
- Step: the store holds no symlinks. A dangling symlink at the tagged or a numbered name does not `exists()`, so `p.replace(newp)` (hash_renamer.py:70) overwrites it; the no-overwrite results (`Step`, `Place`, `Destination`) assume there is none.
- StepKeepsEveryContent: assumes no symlink at the tagged name points back at the source. With one, the byte test (hash_renamer.py:47) compares the source with itself and `p.unlink()` (line 50) deletes the only copy; `RunKeepsEveryContent` rests on the same assumption.
- Races with other processes that change the directory during a run.
- Case-insensitive filesystems: paths are compared exactly, while on such a filesystem (the usual one on Windows and macOS) `exists()` also matches a name that differs only in case.
- File names are Dafny strings of Unicode scalar values. A name that Python decodes with lone surrogates (bytes that are not valid UTF-8, under `surrogateescape`) cannot be represented, for the renamer and for the lister's sort alike.
- Negative `length` values: Python's slice semantics for them are not meaningful here.
- HashRenamer.TargetPath: `with_name` raises ValueError when the new name contains a path separator (a separator such as "/"). That error is not caught in the source and would end the run. The model treats names as plain strings.
- ImageList.ListImages: an entry is only what `is_file()` makes of it. Sockets, dangling symlinks and subdirectories all count as `Directory` (not a file), and a symlink to a file counts as a regular file. The OSError raised is one `AccessFailed` value, not its errno; an `exists()` that raises (list_images.py:6, for a parent without search permission) is not modelled.
- Whole-run idempotence is not claimed. A file moved to a numbered name `…-<i>` is tagged again on the next run, and RetagIsNoop covers only plain moves.
