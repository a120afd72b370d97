# Zip editor model

A Dafny model of `ZipEditor`, the transactional zip-archive editor of the
zipbox connector. The editor collects pending edits against one archive and
applies them all in one pass:

- **Edits.** PUT writes new content, MKDIR writes a directory marker, RENAME
  copies an original entry under a new name, DELETE removes one entry, and
  RMDIR removes a whole prefix.
- **Commit.** `process()` merges the archive's entries, in stored order,
  with the edits in ascending key order. It counts each original entry as
  kept or deleted and each written edit as added, then installs or
  discards the result.
- **Read-only views.** The model also covers the listing of a directory's
  immediate children and the best-guess lookup of one path.

Layout, one module per part of the source:

| file | module | models |
|---|---|---|
| `strings.dfy` | `JavaStrings` | `startsWith`, `endsWith`, and `compareTo < 0` as lexicographic order on characters |
| `paths.dfy` | `Paths` | `normalizeDirectoryName`, both as documented and as its regular expression behaves |
| `wrappers.dfy` | `Wrappers` | `Option` |
| `treemap.dfy` | `TreeMaps` | the pending-write `TreeMap`, as its in-order sequence of key/value pairs |
| `archive.dfy` | `Archives` | entries, the archive file as read from disk, `ZipFile.getEntry` |
| `prefix_matcher.dfy` | `Prefixes` | `class PathPrefixMatcher` |
| `stepper.dfy` | `Steppers` | `class EnumerationStepper`, a cursor over an enumeration |
| `merge.dfy` | `Merging` | the specification of the commit: `Merge` and the properties proved about it |
| `listing.dfy` | `Listings` | the regular-expression match of `entries(prefix)`, its specification `Listing` and its properties |
| `editor.dfy` | `Editor` | `class ZipProcessResult` and `class ZipEditor`: builders, `process()`, `entries()`, `entries(prefix)`, `entry(path)` |
| `scenarios.dfy` | `Scenarios` | the repository's whole-archive tests: the edit logs their builder calls leave, and the counters and archives the commit then gives |

The classes follow the source's mutable state:

- `ZipEditor` holds the fields `adds`, `deletes` and `rmdirs`. Its builders
  reassign them and keep the invariant `Valid()`:
  - the writes are in key order;
  - every PUT and MKDIR key is also a pending delete;
  - directory keys and prefixes are normalised.
- `ZipProcessResult` holds the three counters.
- `EnumerationStepper` holds `done`, `value`, and the count of elements
  taken from its enumeration.

`Process` and its loops are proved against `Merging.Merge`. `Merge` is a
recursive function of the cursor position `i` and the edit index `j`. Its
properties are lemmas:

- exactly-once accounting of every original entry;
- contents as a multiset;
- sorted in, sorted out;
- no duplicate name written;
- a change-free commit leaves the archive as it was.

The archive file is a parameter. `ArchiveFile` is `Missing`, `Corrupt` (a
file that is not a zip archive, for instance the empty temporary file a
caller creates) or `Zip(entries)`. `Process` returns the file's new state.
Entry bodies are opaque tokens: `NoData` for an empty directory marker, and
`Data(w)` for the content writer `w` produces. The clock reading that
stamps new entries is the parameter `now`.

Where the documentation and the code disagree:

- **`entry(path)` with an empty path.** The model follows the code. The
  documentation says an empty path denotes the archive itself. The code's
  check for that case has an empty body (ZipEditor.java:485-487), so the
  scan runs anyway. `LookupEntry` models the scan. With an empty path every
  name starts with `""`, so the first entry's time yields a marker named
  `""`.
- **`process()` with nothing to change over a corrupt file.** The model
  follows the code. The documentation (ZipEditor.java:552-554) says the
  original is left unchanged when nothing changed. When the original is not
  a readable archive, the code writes to the original path itself
  (line 574) and then deletes it (line 662). `Merging.Outcome` gives
  `Missing` in that case.
- **`normalizeDirectoryName`.** The model does not follow the code here.
  The regular expression differs from the documented behaviour on names
  that end in a line terminator (see Findings). `Paths.NormalizeAsWritten`
  models the regular expression, and every other member uses the
  documented behaviour `Paths.Normalize`, as listed under "Left out".

## Model

All source paths below are `src/main/java/com/cleo/labs/connector/zip/ZipEditor.java`
unless a test file is named.

| member | source | states |
|---|---|---|
| Paths.Normalize | src/main/java/com/cleo/labs/connector/zip/ZipEditor.java:43-56 | empty exactly when the input is empty; a non-empty result ends in '/'; the result starts with the input and is at most one character longer; a name already ending in '/' is unchanged |
| Paths.NormalizeIdempotent | src/main/java/com/cleo/labs/connector/zip/ZipEditor.java:48-56 | normalising twice gives what normalising once gives |
| Paths.NormalizeExamples | src/test/java/com/cleo/labs/connector/zip/TestZipEditor.java:69-74 | "" stays "", "abc" becomes "abc/", "/" and "abc/" stay as they are |
| Paths.IsLineTerminator | src/main/java/com/cleo/labs/connector/zip/ZipEditor.java:46-55 | the characters before which java.util.regex's `$` also matches when MULTILINE is off: '\n', '\r', U+0085, U+2028 and U+2029 |
| Paths.InsertDelimiter | src/main/java/com/cleo/labs/connector/zip/ZipEditor.java:55 | the `replaceFirst` of an empty match at position `p`: the prefix before `p` is kept, then '/', then the rest |
| Paths.NormalizeAsWritten | src/main/java/com/cleo/labs/connector/zip/ZipEditor.java:46-55 | the `replaceFirst` with `(?<=[^/])$` as java.util.regex runs it: the result is the input, or the input with '/' inserted at one of its last three positions |
| Paths.AsWrittenAgreesOffLineTerminators | src/main/java/com/cleo/labs/connector/zip/ZipEditor.java:46-55 | on every name that is empty or does not end in a line terminator, the regular expression gives the documented result |
| Paths.AsWrittenMisplacesDelimiter | src/main/java/com/cleo/labs/connector/zip/ZipEditor.java:46-55 | "a\n" becomes "a/\n", which does not end in '/'; normalising that again gives "a/\n/"; the documented result is "a\n/" |
| JavaStrings.StartsWith | src/main/java/com/cleo/labs/connector/zip/ZipEditor.java:113 | `s.startsWith(prefix)`: the prefix is no longer than `s` and equals its first characters |
| JavaStrings.EndsWith | src/main/java/com/cleo/labs/connector/zip/ZipEditor.java:436 | `s.endsWith(suffix)`: the suffix is no longer than `s` and equals its last characters |
| JavaStrings.Less | src/main/java/com/cleo/labs/connector/zip/ZipEditor.java:582 | `compareTo < 0`: at the first differing character the smaller sorts first, and a proper prefix sorts before the longer name |
| JavaStrings.LessIrreflexive | src/main/java/com/cleo/labs/connector/zip/ZipEditor.java:582 | no name sorts before itself under `compareTo` |
| JavaStrings.LessTransitive | src/main/java/com/cleo/labs/connector/zip/ZipEditor.java:582 | `compareTo < 0` is transitive |
| JavaStrings.LessTotal | src/main/java/com/cleo/labs/connector/zip/ZipEditor.java:582 | of two different names one sorts before the other |
| TreeMaps.Put | src/main/java/com/cleo/labs/connector/zip/ZipEditor.java:313 | `TreeMap.put`: the new pair is present, and the size grows by at most one |
| TreeMaps.PutElements | src/main/java/com/cleo/labs/connector/zip/ZipEditor.java:313 | after `put(k, v)` every pair is `(k, v)` or was there before, and every pair at another key is kept |
| TreeMaps.PutToMap | src/main/java/com/cleo/labs/connector/zip/ZipEditor.java:313 | last writer wins: as a map, `put(k, v)` is the update `m[k := v]` |
| TreeMaps.PutSorted | src/main/java/com/cleo/labs/connector/zip/ZipEditor.java:213 | `put` keeps the keys strictly ascending |
| Archives.FirstNamed | src/main/java/com/cleo/labs/connector/zip/ZipEditor.java:621 | nothing exactly when no entry has the name; otherwise the entry at the first index with that name |
| Archives.GetEntry | src/main/java/com/cleo/labs/connector/zip/ZipEditor.java:621-622 | `zipFile.getEntry(from)`: an entry named exactly `from` whenever one exists; otherwise, for a non-empty name without a trailing '/', one named `from + "/"`; nothing exactly when neither exists |
| Archives.EntriesOf | src/main/java/com/cleo/labs/connector/zip/ZipEditor.java:398-407 | the entries a `ZipFile` enumerates, in stored order; a missing or unreadable file reads as no entries, as the `IOException` catch gives |
| Prefixes.MatchesAny | src/main/java/com/cleo/labs/connector/zip/ZipEditor.java:111-118 | a path is covered when some stored prefix starts it |
| Prefixes.PathPrefixMatcher.constructor | src/main/java/com/cleo/labs/connector/zip/ZipEditor.java:93-95 | a new matcher has no prefixes |
| Prefixes.PathPrefixMatcher.Add | src/main/java/com/cleo/labs/connector/zip/ZipEditor.java:101-104 | appends the normalised prefix and changes nothing else |
| Prefixes.PathPrefixMatcher.Matches | src/main/java/com/cleo/labs/connector/zip/ZipEditor.java:111-118 | true exactly when the path starts with one of the stored prefixes |
| Steppers.EnumerationStepper.Position | src/main/java/com/cleo/labs/connector/zip/ZipEditor.java:130-169 | the cursor's index: the length once done; otherwise `value` is the element at that index |
| Steppers.EnumerationStepper.constructor | src/main/java/com/cleo/labs/connector/zip/ZipEditor.java:141-147 | primed at index 0 (done exactly when the enumeration is empty) |
| Steppers.EnumerationStepper.Empty | src/main/java/com/cleo/labs/connector/zip/ZipEditor.java:151-153 | the no-archive cursor is done from the start |
| Steppers.EnumerationStepper.Step | src/main/java/com/cleo/labs/connector/zip/ZipEditor.java:176-182 | advances the index by one; a done cursor stays where it is |
| Steppers.EnumerationStepper.HasNext | src/main/java/com/cleo/labs/connector/zip/ZipEditor.java:195-198 | true exactly when an element is left |
| Steppers.EnumerationStepper.Next | src/main/java/com/cleo/labs/connector/zip/ZipEditor.java:203-208 | returns the element at the index and steps past it |
| Editor.ZipProcessResult.constructor | src/main/java/com/cleo/labs/connector/zip/ZipEditor.java:523-526 | all counters start at zero |
| Editor.ZipProcessResult.Keep | src/main/java/com/cleo/labs/connector/zip/ZipEditor.java:527-529 | `keeps` goes up by one; the other counters stay |
| Editor.ZipProcessResult.Add | src/main/java/com/cleo/labs/connector/zip/ZipEditor.java:533-535 | `adds` goes up by one; the other counters stay |
| Editor.ZipProcessResult.Delete | src/main/java/com/cleo/labs/connector/zip/ZipEditor.java:539-541 | `deletes` goes up by one; the other counters stay |
| Editor.ZipProcessResult.Changes | src/main/java/com/cleo/labs/connector/zip/ZipEditor.java:545-547 | the changes are the adds plus the deletes, so zero exactly when nothing was added and nothing deleted |
| Editor.ZipEditor.constructor | src/main/java/com/cleo/labs/connector/zip/ZipEditor.java:235-239 | remembers the file name; no pending edits; the invariant holds |
| Editor.ZipEditor.Reset | src/main/java/com/cleo/labs/connector/zip/ZipEditor.java:220-224 | no pending writes, deletes or prefixes (a fresh matcher); the invariant holds |
| Editor.ZipEditor.Add | src/main/java/com/cleo/labs/connector/zip/ZipEditor.java:311-315 | `path` joins the deletes; the writes become `put(path, PUT)`, so `path` maps to the new PUT and every other key keeps its edit; the prefixes stay; the invariant is kept |
| Editor.ZipEditor.Mkdir | src/main/java/com/cleo/labs/connector/zip/ZipEditor.java:328-333 | the same for the normalised path and a MKDIR |
| Editor.ZipEditor.Delete | src/main/java/com/cleo/labs/connector/zip/ZipEditor.java:345-348 | only `path` joins the deletes |
| Editor.ZipEditor.Rmdir | src/main/java/com/cleo/labs/connector/zip/ZipEditor.java:359-363 | only the normalised path is appended to the prefixes |
| Editor.ZipEditor.Rename | src/main/java/com/cleo/labs/connector/zip/ZipEditor.java:370-374 | `from` joins the deletes; `to` maps to a RENAME from `from`, every other key keeps its edit; the invariant is kept |
| Editor.ZipEditor.Entries | src/main/java/com/cleo/labs/connector/zip/ZipEditor.java:398-407 | every entry of a readable archive in stored order; nothing for a missing or corrupt file |
| Listings.MatchChild | src/main/java/com/cleo/labs/connector/zip/ZipEditor.java:443-450 | `match.matcher(name).matches()` and its groups: no match unless the name starts with `q`; group 1 runs from there to the first '/', and must not be empty; group 2 is absent when there is no '/', and otherwise is everything after that '/', which must hold no line terminator |
| Listings.HasSuffix | src/main/java/com/cleo/labs/connector/zip/ZipEditor.java:450 | `!isNullOrEmpty(m.group(2))`: group 2 took part and is not empty |
| Listings.IsDirectChild | src/main/java/com/cleo/labs/connector/zip/ZipEditor.java:448-452 | `m.matches()` and group 2 is null or empty: the name is `q + seg` or `q + seg + "/"` |
| Listings.KnownAfter | src/main/java/com/cleo/labs/connector/zip/ZipEditor.java:456-464 | `directories.add(subdir)`: an entry that implies a subdirectory adds it to the known names; other entries leave them as they are |
| Listings.DirNames | src/main/java/com/cleo/labs/connector/zip/ZipEditor.java:435-438 | the seed of `directories`: the names of the entries that end in '/' |
| Listings.ListStep | src/main/java/com/cleo/labs/connector/zip/ZipEditor.java:447-465 | one entry's contribution: itself when it is a direct child; a zero-length marker with its time for an implied subdirectory not yet known; otherwise nothing |
| Listings.Listing | src/main/java/com/cleo/labs/connector/zip/ZipEditor.java:445-468 | the loop over the entries in order, adding each implied subdirectory to the known names once it is seen |
| Listings.MatchDetermined | src/main/java/com/cleo/labs/connector/zip/ZipEditor.java:440-450 | any full match of `^q([^/]+)(?:/(.*))?$` has group 1 ending at the first '/' after `q`, and group 2 is the rest after that '/' |
| Listings.MatchChildFinds | src/main/java/com/cleo/labs/connector/zip/ZipEditor.java:443-450 | whenever the pattern matches a name, `MatchChild` returns that match |
| Listings.MatchChildSound | src/main/java/com/cleo/labs/connector/zip/ZipEditor.java:443-450 | what `MatchChild` returns is a full match of the pattern |
| Listings.MatchChildCorrect | src/main/java/com/cleo/labs/connector/zip/ZipEditor.java:443-450 | both directions together: `MatchChild` gives a match exactly when the pattern matches, and then the only one |
| Listings.ImpliedDir | src/main/java/com/cleo/labs/connector/zip/ZipEditor.java:450-457 | a deeper descendant implies `q + seg + "/"`: it extends `q`, is a proper prefix of the name and ends in '/' |
| Listings.ImpliedDirIsChild | src/main/java/com/cleo/labs/connector/zip/ZipEditor.java:456-457 | the implied subdirectory is itself an immediate child of `q` |
| Listings.ListStepByMatch | src/main/java/com/cleo/labs/connector/zip/ZipEditor.java:447-465 | one loop turn in terms of the match: nothing for no match; the entry itself for a direct child; otherwise a marker exactly when the subdirectory is not yet known, and the subdirectory becomes known |
| Listings.ListingLoopStep | src/main/java/com/cleo/labs/connector/zip/ZipEditor.java:446-467 | one loop turn keeps the account "result so far + listing of the rest = whole listing" |
| Listings.ListingTrace | src/main/java/com/cleo/labs/connector/zip/ZipEditor.java:446-467 | soundness and order: each listed entry comes from its own input entry, at strictly increasing input positions; it is that entry as a direct child, or the marker of the subdirectory it is the first to imply, with its time, not explicitly present |
| Listings.ListingComplete | src/main/java/com/cleo/labs/connector/zip/ZipEditor.java:446-467 | every direct child is listed, and every implied subdirectory is already known or listed by name |
| Listings.ListingDistinct | src/main/java/com/cleo/labs/connector/zip/ZipEditor.java:456-464 | with distinct input names, no name is listed twice: a marker is made only for a name no entry has, and once |
| Listings.ListingCoversImpliedDirs | src/main/java/com/cleo/labs/connector/zip/ZipEditor.java:435-464 | seeded with the explicit directory names, every implied subdirectory appears in the listing, as its own entry or as a marker |
| Listings.ListingProperties | src/main/java/com/cleo/labs/connector/zip/ZipEditor.java:432-469 | the three facts above for the listing of a whole archive |
| Editor.ZipEditor.EntriesUnder | src/main/java/com/cleo/labs/connector/zip/ZipEditor.java:432-469 | `entries(prefix)` returns `Listing` of the normalised prefix; so it holds every direct child, names every implied subdirectory, and repeats no name when the archive does not |
| Editor.ZipEditor.ListChildren | src/main/java/com/cleo/labs/connector/zip/ZipEditor.java:435-468 | the loop, with `directories` seeded from the names ending in '/', returns `Listing` |
| Listings.NamesPath | src/main/java/com/cleo/labs/connector/zip/ZipEditor.java:488-492 | the exact-name test of `entry(path)`: the entry's name equals `path` or `dir`, the normalised path |
| Editor.ZipEditor.LookupEntry | src/main/java/com/cleo/labs/connector/zip/ZipEditor.java:484-511 | nothing exactly when no name equals `path` or its normalised form, and none starts with the normalised form; otherwise the first entry with an equal name, and only when there is none, a marker named by the normalised path with the time of the first entry under it |
| Merging.Dropped | src/main/java/com/cleo/labs/connector/zip/ZipEditor.java:584 | an original entry is deleted when its name is an exact pending delete or a prefix covers it |
| Merging.Pass | src/main/java/com/cleo/labs/connector/zip/ZipEditor.java:583-597 | one original entry: counted deleted and not written when dropped, otherwise written unchanged and counted kept |
| Merging.Produces | src/main/java/com/cleo/labs/connector/zip/ZipEditor.java:603-634 | whether edit `j` writes an entry: always for MKDIR and PUT, and for RENAME exactly when `getEntry(from)` is not null |
| Merging.CopiesFirst | src/main/java/com/cleo/labs/connector/zip/ZipEditor.java:582 | the copy loop's condition: the cursor is not done and its name sorts strictly before the next edit's key, or, in the trailing loop, no edit is left |
| Merging.Emit | src/main/java/com/cleo/labs/connector/zip/ZipEditor.java:600-637 | one edit: MKDIR writes an empty entry and PUT the writer's content, both stamped `now`; RENAME writes the source's bytes and time under the new key when `getEntry(from)` finds it, and otherwise nothing; each written entry counts one add |
| Merging.Merge | src/main/java/com/cleo/labs/connector/zip/ZipEditor.java:578-654 | the two loops as one recursion: the cursor's entry goes first while its name sorts strictly before the next edit's key or no edit is left; otherwise the next edit is written |
| Merging.Commit | src/main/java/com/cleo/labs/connector/zip/ZipEditor.java:576-654 | the merge of the whole archive with all the edits |
| Merging.Outcome | src/main/java/com/cleo/labs/connector/zip/ZipEditor.java:567-666 | with no changes, a readable archive is left as it was and any other file is deleted; with changes, the file holds what was written |
| Merging.CopyStep | src/main/java/com/cleo/labs/connector/zip/ZipEditor.java:582-599 | copying or dropping the cursor's entry, when it sorts first, keeps the writing loop's account against the merge |
| Merging.EmitStep | src/main/java/com/cleo/labs/connector/zip/ZipEditor.java:600-637 | writing edit `j`, once no original sorts before it, keeps the account |
| Merging.MergeEnd | src/main/java/com/cleo/labs/connector/zip/ZipEditor.java:639-654 | with the edits done and the cursor exhausted, nothing more is written or counted |
| Merging.MergeAccounting | src/main/java/com/cleo/labs/connector/zip/ZipEditor.java:578-654 | exactly-once accounting: deletes count the original entries a delete or prefix covers; keeps count the rest, so keeps + deletes = the number of originals; adds count the PUT and MKDIR edits and the RENAMEs whose source exists |
| Merging.MergeContents | src/main/java/com/cleo/labs/connector/zip/ZipEditor.java:578-654 | the output is, as a multiset, the surviving originals plus what the edits write |
| Merging.MergeAbove | src/main/java/com/cleo/labs/connector/zip/ZipEditor.java:578-599 | when every kept original and every written key from (i, j) on sorts after a name, so does every output name |
| Merging.MergeAscending | src/main/java/com/cleo/labs/connector/zip/ZipEditor.java:580-582 | sorted in, sorted out: ascending original names, ascending keys and no collision give strictly ascending output names |
| Merging.MergeAvoids | src/main/java/com/cleo/labs/connector/zip/ZipEditor.java:587-588 | a name that no kept original and no producing edit has never appears in the output |
| Merging.MergeDistinct | src/main/java/com/cleo/labs/connector/zip/ZipEditor.java:587-624 | with distinct kept names, ascending keys and no collision, no name is written twice |
| Merging.MergeUnchanged | src/main/java/com/cleo/labs/connector/zip/ZipEditor.java:660-662 | a merge that adds and deletes nothing writes the originals unchanged |
| Merging.CommitReadsBack | src/main/java/com/cleo/labs/connector/zip/ZipEditor.java:655-667 | whichever branch the outcome takes, reading the file afterwards gives exactly what the merge wrote |
| Merging.NoCollisionFromRenames | src/main/java/com/cleo/labs/connector/zip/ZipEditor.java:311-313 | because PUT and MKDIR delete their own key, only a RENAME can collide: no colliding RENAME means no collision at all |
| Editor.ZipEditor.Transfer | src/main/java/com/cleo/labs/connector/zip/ZipEditor.java:583-597 | the cursor's entry is counted deleted when a delete or prefix covers it, otherwise appended and counted kept |
| Editor.ZipEditor.Write | src/main/java/com/cleo/labs/connector/zip/ZipEditor.java:600-637 | edit `j` is written as `Emit` specifies: MKDIR and PUT stamped `now`, RENAME with its source's bytes and time, or nothing without a source |
| Editor.ZipEditor.CopyLess | src/main/java/com/cleo/labs/connector/zip/ZipEditor.java:582-599 | the copy loop before edit `j` keeps the account and stops where no original sorts before the key |
| Editor.ZipEditor.CopyRest | src/main/java/com/cleo/labs/connector/zip/ZipEditor.java:639-654 | the trailing loop keeps the account and leaves the cursor exhausted |
| Editor.ZipEditor.CopyBefore | src/main/java/com/cleo/labs/connector/zip/ZipEditor.java:578-599 | chooses one of the two copy loops; same contract |
| Editor.ZipEditor.CopyAndWrite | src/main/java/com/cleo/labs/connector/zip/ZipEditor.java:578-637 | one pass of the loop over the edits advances the account from edit `j` to `j + 1` |
| Editor.ZipEditor.WriteMerged | src/main/java/com/cleo/labs/connector/zip/ZipEditor.java:576-654 | the written entries and the counters are exactly `Commit` of the edit log and the archive |
| Scenarios.SeedPuts | src/test/java/com/cleo/labs/connector/zip/TestZipEditor.java:23-26 | the seed's four `put` calls leave the TreeMap in key order: "bar/", "foo/", "foo/test2.txt", "test1.txt" |
| Scenarios.SeedEdits | src/test/java/com/cleo/labs/connector/zip/TestZipEditor.java:22-26 | the seed's builder calls on a fresh editor leave `SeedLog()` |
| Scenarios.SeedCommit | src/test/java/com/cleo/labs/connector/zip/TestZipEditor.java:20-33 | makeNewZip over the empty temporary file: keeps 0, adds 4, deletes 0, and the file then holds "bar/", "foo/", "foo/test2.txt", "test1.txt", the directories empty |
| Scenarios.NewZipEdits | src/test/java/com/cleo/labs/connector/zip/TestZipEditor.java:39-40 | `add("test1.txt")` on a fresh editor leaves `NewZipLog()` |
| Scenarios.NewZipCommit | src/test/java/com/cleo/labs/connector/zip/TestZipEditor.java:37-46 | testNewZip: keeps 0, adds 1, deletes 0, and the file holds just "test1.txt" |
| Scenarios.RenameEdits | src/test/java/com/cleo/labs/connector/zip/TestZipEditor.java:89-90 | `rename("foo/test2.txt", "bar/new.txt")` on a fresh editor leaves `RenameLog()` |
| Scenarios.MkdirExistingEdits | src/test/java/com/cleo/labs/connector/zip/TestZipEditor.java:78-79 | `mkdir("bar")` on a fresh editor leaves `MkdirExistingLog()` |
| Scenarios.EditEdits | src/test/java/com/cleo/labs/connector/zip/TestZipEditor.java:56-60 | `add("test2.txt")`, `add("test1.txt")`, `rmdir("foo")` on a fresh editor leave `EditTestLog()` |
| Scenarios.RenameCounts | src/test/java/com/cleo/labs/connector/zip/TestZipEditor.java:87-96 | `rename("foo/test2.txt", "bar/new.txt")` over the seeded archive keeps 3, adds 1 and deletes 1 |
| Scenarios.MkdirExistingCounts | src/test/java/com/cleo/labs/connector/zip/TestZipEditor.java:75-85 | `mkdir("bar")` over the seeded archive keeps 3, adds 1 and deletes 1 |
| Scenarios.EditCounts | src/test/java/com/cleo/labs/connector/zip/TestZipEditor.java:54-67 | `add("test2.txt")`, `add("test1.txt")`, `rmdir("foo")` over the seeded archive keep 1, add 2 and delete 3 |
| Editor.ZipEditor.Process | src/main/java/com/cleo/labs/connector/zip/ZipEditor.java:562-669 | the outcome branch and the property lemmas together: the counters are `Commit`; the file becomes `Outcome`; reading it gives the counted output; no name is written twice; ascending names stay ascending; the edits are reset |

## Left out

- I/O, compression and the zip container format are not modelled. Bodies are tokens, each read succeeds, and the temporary file and `Files.move`/`Files.delete` are folded into the returned `ArchiveFile`. So the first copy loop's swallowed read failure (ZipEditor.java:592-593) is not modelled.
- `compressionLevel` is left out: it only reaches the compressor.
- `unique()` temporary naming is left out: it depends on the clock and on probing the file system.
- The time of a new entry is the parameter `now`. The source reads the clock once per edit, and the model uses a single reading per commit.
- Only one time per entry is modelled. `entry(path)` also copies creation and access times, and those are not represented.
- `entrySet()` is left out: it only maps `entries()` to names.
- `Editor.ZipEditor.Mkdir`, `Editor.ZipEditor.Rmdir`, `Prefixes.PathPrefixMatcher.Add`, `Editor.ZipEditor.EntriesUnder` and `Editor.ZipEditor.LookupEntry` use the documented normalisation `Paths.Normalize`, not the regular expression of ZipEditor.java:55. They differ on names that end in a line terminator. For `mkdir("a\n")` the source uses the key "a/\n" and then writes the entry "a/\n/", because `Edit.mkdir` normalises again (line 74). For `rmdir("a\n")` the source stores the prefix "a/\n/". The model uses "a\n/" in all these cases.
- `Merging.Outcome`: a missing original is read as `Missing` because `new ZipFile` is taken to throw `FileNotFoundException` for it, which the catch at ZipEditor.java:571 handles. That is the behaviour of JDK 8. On JDK 9 and later a missing file raises `NoSuchFileException`, which that catch does not handle, so `process()` would fail instead. This is from reading the JDK, not from running it.
- `Editor.ZipEditor.EntriesUnder`: the model needs a prefix with no regular-expression metacharacters. The source builds the pattern from the prefix unquoted, so other prefixes are read as patterns.
- `Editor.ZipEditor.Process`: two cases where the source throws are stated as preconditions.
  - A RENAME over a missing or corrupt archive dereferences the null `ZipFile`.
  - A RENAME onto a kept original's name makes `ZipOutputStream` reject the duplicate; `KeptDistinct` excludes duplicate original names for the same reason.
- `Archives.GetEntry` models a name stored twice by its first occurrence; which duplicate `ZipFile` returns is not modelled.
- `compareTo` is treated as order on characters. Java compares UTF-16 code units, so the order of characters outside the Basic Multilingual Plane is not modelled that way.
- `Editor.ZipProcessResult.Keep`: the counters are unbounded naturals, so the source's `int` overflow beyond 2^31-1 entries is not modelled. `Add` and `Delete` are the same.
- Null paths are left out, as are the fluent `return this` of the builders and concurrent use of one editor.
- The repository's other files are not part of this model: the connector client, the attribute views and the configuration classes.
- The repository's tests on whole archives are restated as follows:
  - makeNewZip (also all of testMkdir) and testNewZip: their counters and the whole archive they write (`SeedCommit`, `NewZipCommit`);
  - testEdit, testMkdirExisting and testRename: only their counters (`EditCounts`, `MkdirExistingCounts`, `RenameCounts`).

  The edit log of each of these tests is derived from the builders (`SeedEdits`, `NewZipEdits`, `EditEdits`, `MkdirExistingEdits`, `RenameEdits`). The name and size lists of the last three tests are not restated as concrete lemmas; in principle they follow from `MergeContents` and `MergeAscending` together. testPrefix's listings are not restated.

## Findings

| source | as written | input that shows it | evidently intended | confidence | as-written member | corrected member |
|---|---|---|---|---|---|---|
| src/main/java/com/cleo/labs/connector/zip/ZipEditor.java:46-55 | `replaceFirst("(?<=[^/])$", "/")` without MULTILINE: `$` also matches just before a final line terminator, and the replacement is made at that first position | `normalizeDirectoryName("a\n")` gives `"a/\n"`, which does not end in '/', and normalising again gives `"a/\n/"` | append '/' at the very end, as the documentation says, and be idempotent | not executed; follows from the java.util.regex definition of `$` | Paths.NormalizeAsWritten, Paths.AsWrittenMisplacesDelimiter | Paths.Normalize, Paths.NormalizeIdempotent |
