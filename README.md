# Per-document view-state cache of the Xournal++ metadata manager

Xournal++ remembers, for each document it has opened, the page that was shown and the
zoom factor. The `MetadataManager` keeps one pending record in memory while a document
is open. When the document changes or the manager is destroyed, it flushes that record
into the `metadata` configuration folder as a small text file named
`<microseconds>.metadata`:

    XOJ-METADATA/1.0
    "<document path, quoted>"
    page=<n>
    zoom=<z>

Looking a document up scans the folder. Every file is parsed. A file that fails the
structural checks is deleted, but the manager only ever deletes `.metadata` files. The
valid records are sorted newest first, and the first record for the document is
returned. Every record beyond the newest twenty is evicted. A flush scans the folder the
same way, deletes the older records for the same document, and writes the new file.

The project is split into these modules:

- `Numbers`: decimal output, `strtoll` with clamping, and narrowing to 32 bits.
- `Quoting`: `std::quoted` for output and input.
- `FilePaths`: `stem()` and `extension()` of a file name.
- `MetadataCodec`: the record, the file format and its parser.
- `MetadataScan`: what scanning, lookup and flushing do to the folder, stated over the
  folder's contents.
- `MetadataStore`: the manager and the folder as classes, with the operations written as
  methods that change them.

The folder is a `MetadataFolder` object holding a map from file name to file text. It
also holds the set of files the file system refuses to remove, and an optional count of
entries after which listing the directory fails. The clock is a parameter `now`. The
order in which the directory is listed is left open: each step picks any file not yet
visited.

## Model

| member | source | states |
|---|---|---|
| MetadataCodec.DefaultEntry | src/core/control/settings/MetadataManager.cpp:18 | A fresh record is the "no data" sentinel: not valid, zoom 1, page 0, time 0, and empty path and file name. |
| MetadataCodec.ParseFile | src/core/control/settings/MetadataManager.cpp:89-135 | The record read from a file names that file, and its time is `strtoll` of the file's stem. It is valid exactly when the header line matches, a second line exists, the third line starts `page=` and the fourth starts `zoom=`, each with at least 6 characters. A file without the header gives the sentinel. |
| MetadataCodec.LinesOfJoin | src/core/control/settings/MetadataManager.cpp:101-121 | Lines written with a trailing line break each are read back by successive `getline` calls as the same lines. |
| MetadataCodec.EncodeRoundTrip | src/core/control/settings/MetadataManager.cpp:172-182 | The file a flush writes at time `now` reads back as a valid record with the same path, page and zoom. Its time is `now`, taken from the file name. This holds for every path without a line break. |
| MetadataCodec.LineBreakInPathIsCut | src/core/control/settings/MetadataManager.cpp:105-109 | A path holding a line break does not round-trip: the path read back is a proper prefix of it, ending just before its first line break. |
| Quoting.QuoteRoundTrip | src/core/control/settings/MetadataManager.cpp:180 | Every string survives `quoted` output followed by `quoted` input, including spaces, quotes and backslashes. |
| Quoting.UnterminatedQuote | src/core/control/settings/MetadataManager.cpp:108-109 | A quoted text cut before its closing quote reads back as the text that was escaped. |
| Quoting.EscapeKeeps | src/core/control/settings/MetadataManager.cpp:180 | Escaping adds only quotes and backslashes: any other character occurs in the output exactly when it occurs in the input. |
| Quoting.ReadQuoted | src/core/control/settings/MetadataManager.cpp:108-109 | Reading a line with nothing but white space leaves the line as it was (libstdc++). A line whose first non-blank character is not a quote reads as a non-empty prefix of the text after the leading blanks, containing no white space and ending at white space or the end of the line. |
| Numbers.StrToLLOfIntToString | src/core/control/settings/MetadataManager.cpp:99 | `strtoll` of a 64-bit number written in decimal gives the number back. |
| Numbers.LeadingIntOfIntToString | src/core/control/settings/MetadataManager.cpp:124 | The leading number of a decimal integer written out is that integer. |
| Numbers.StrToLL | src/core/control/settings/MetadataManager.cpp:99 | `strtoll` gives the 64-bit value nearest to the leading number of the text, which is that number when it fits and the nearer bound otherwise. |
| Numbers.Narrow32 | src/core/control/settings/MetadataManager.cpp:119 | Storing the `long long` page in an `int` keeps its value modulo 2^32 and changes nothing that already fits. |
| FilePaths.ExtensionShape | src/core/control/settings/MetadataManager.cpp:30 | A file name's extension is a suffix of it. When non-empty it starts with its only '.' and is shorter than the name, so it runs from the last '.'. "." and ".." have none, and every other name with a '.' after its first character has a non-empty one. |
| FilePaths.StemThenExtension | src/core/control/settings/MetadataManager.cpp:98 | The stem followed by the extension is the file name. |
| FilePaths.MetadataFileNameParts | src/core/control/settings/MetadataManager.cpp:173-174 | A file named `<time>.metadata` has extension `.metadata` and stem the decimal time. |
| MetadataScan.RemoveAll | src/core/control/settings/MetadataManager.cpp:28-40 | Deleting files keeps every other file with its text. A file disappears only if it was named and removable. Every named removable file disappears. |
| MetadataScan.SortNewestFirst | src/core/control/settings/MetadataManager.cpp:59-81 | The sorted list is ordered newest first and is a permutation of its input. |
| MetadataScan.InsertNewestFirst | src/core/control/settings/MetadataManager.cpp:59-81 | Inserting a record into a list sorted newest first keeps it sorted, and adds exactly that record. |
| MetadataScan.DistinctPermutation | src/core/control/settings/MetadataManager.cpp:81 | Sorting a list without repeats leaves it without repeats. |
| MetadataScan.ScanNames | src/core/control/settings/MetadataManager.cpp:69-75 | Each record a scan returns is valid and is the record of a visited file. No two come from the same file. |
| MetadataScan.FirstFor | src/core/control/settings/MetadataManager.cpp:143-149 | The lookup result is the first record for the path, with no earlier one for it. When no record is for the path, it is the sentinel. |
| MetadataScan.FindFor | src/core/control/settings/MetadataManager.cpp:143-149 | The loop with its early exit returns the first record for the path, or the sentinel. |
| MetadataScan.FirstForIsNewest | src/core/control/settings/MetadataManager.cpp:143-149 | In a list sorted newest first, the first record for a path is at least as new as every other record for it. |
| MetadataScan.LookupFindsNewest | src/core/control/settings/MetadataManager.cpp:140-157 | With a working listing, the lookup result is valid exactly when some file holds a valid record for the path. It is then that path's newest record; otherwise it is the sentinel. |
| MetadataScan.EvictionKeepsNewest | src/core/control/settings/MetadataManager.cpp:151-154 | With a working listing and when every file can be removed, a lookup leaves exactly the files of the first twenty records, min(count, 20) of them. Each kept record is at least as new as each evicted one. |
| MetadataScan.EvictionKeepsOnlyNewest | src/core/control/settings/MetadataManager.cpp:151-154 | With a working listing, a removable file left after a lookup holds one of the twenty newest records, at least as new as every evicted one. |
| MetadataScan.EvictionKeepsAllNewest | src/core/control/settings/MetadataManager.cpp:151-154 | With a working listing, the file of each of the twenty newest records is still there after a lookup. |
| MetadataScan.ListedCount | src/core/control/settings/MetadataManager.cpp:151 | With a working listing, the first twenty records of a scan come from min(count, 20) different files. |
| MetadataScan.FilesBetweenSize | src/core/control/settings/MetadataManager.cpp:151-154 | The first `hi` records of a list whose records come from different files come from `hi` files. |
| MetadataScan.ScannedKeepsValid | src/core/control/settings/MetadataManager.cpp:69-75 | After a full scan, every removable file that is left held a valid record. |
| MetadataScan.ListedAt | src/core/control/settings/MetadataManager.cpp:69-75 | Every valid record of a visited file is in the scan's result. |
| MetadataScan.FlushLeavesOneLive | src/core/control/settings/MetadataManager.cpp:162-184 | With a working listing, after a flush the file `<now>.metadata` holds the record's text. Every other file is one of the old ones, unchanged. A removable file left holds a valid record for another document. A file removed was removable and either corrupt or for the same document. |
| MetadataScan.FlushedOnlyRecordFor | src/core/control/settings/MetadataManager.cpp:162-184 | With a working listing and when every file can be removed, the new file is the only one left with a valid record for the flushed document. |
| MetadataScan.FlushThenLookup | src/core/control/settings/MetadataManager.cpp:140-184 | With a working listing for both the flush and the lookup, and when every file can be removed, a lookup after a flush of a path without a line break finds the record just flushed, stamped with the flush time. |
| MetadataScan.FlushThenLookupRecords | src/core/control/settings/MetadataManager.cpp:140-184 | With working listings and when every file can be removed, a lookup on the flushed folder, where the new record is the only valid one for its path, finds that record. |
| MetadataScan.DistinctCounts | src/core/control/settings/MetadataManager.cpp:69-81 | A list has no repeats exactly when each record occurs at most once in its multiset. |
| MetadataScan.InsertKeepsOrder | src/core/control/settings/MetadataManager.cpp:59-81 | A record placed between the newer and the older ones keeps a list sorted newest first. |
| MetadataScan.FilesForStep | src/core/control/settings/MetadataManager.cpp:164-169 | Looking at one more record adds its file to those for the path exactly when the record is for the path. |
| MetadataScan.ScannedStep | src/core/control/settings/MetadataManager.cpp:70 | Visiting one more file deletes it when it is corrupt and removable, and changes nothing else. |
| MetadataScan.ReadStep | src/core/control/settings/MetadataManager.cpp:70-74 | Appending a visited file's record when it is valid keeps the list equal to the valid records visited, once each. |
| MetadataStore.MetadataFolder.constructor | src/core/control/settings/MetadataManager.cpp:65 | The folder starts with the given files, undeletable files and listing fault. |
| MetadataStore.MetadataManager.constructor | src/core/control/settings/MetadataManager.cpp:21 | A new manager has no pending record and has shown no error. |
| MetadataStore.MetadataManager.DeleteMetadataFile | src/core/control/settings/MetadataManager.cpp:28-40 | The folder loses the named file exactly when its extension is `.metadata` and the file system lets it go. Nothing else changes. |
| MetadataStore.MetadataManager.LoadMetadataFile | src/core/control/settings/MetadataManager.cpp:89-135 | Returns the parse of the file's text. The folder is unchanged when the record is valid; otherwise the file is deleted as `DeleteMetadataFile` would. |
| MetadataStore.MetadataManager.VisitFile | src/core/control/settings/MetadataManager.cpp:70 | Loading one more file gives its record and extends the scan's deletions by that file. |
| MetadataStore.MetadataManager.ReadNext | src/core/control/settings/MetadataManager.cpp:69-75 | One iteration over the directory visits one unvisited file, keeps its record when valid, and keeps the scan invariant. |
| MetadataStore.MetadataManager.ReadFolder | src/core/control/settings/MetadataManager.cpp:68-79 | The directory loop visits every file, or as many as the listing gives before it fails. It then returns each valid record once, and shows one error exactly when the listing failed. |
| MetadataStore.MetadataManager.LoadList | src/core/control/settings/MetadataManager.cpp:64-84 | The result is a scan of the folder: each valid record of the visited files once, newest first when the listing works. Corrupt files that were visited are deleted, and one error is shown when the listing fails. |
| MetadataStore.MetadataManager.DeleteBeyondLimit | src/core/control/settings/MetadataManager.cpp:151-154 | Deletes the files of the records at positions 20 and beyond, and nothing else. |
| MetadataStore.MetadataManager.GetForFile | src/core/control/settings/MetadataManager.cpp:140-157 | Returns the first record of the scan for the document. The folder afterwards is the scanned folder without the records beyond the first twenty. |
| MetadataStore.MetadataManager.DeleteRecordsFor | src/core/control/settings/MetadataManager.cpp:164-169 | Deletes the files of the listed records for the document, and nothing else. |
| MetadataStore.MetadataManager.StoreMetadata | src/core/control/settings/MetadataManager.cpp:162-184 | After a scan, deletes the older records for the document and writes `<now>.metadata` with the record's text. |
| MetadataStore.MetadataManager.StoreViewState | src/core/control/settings/MetadataManager.cpp:189-205 | An empty document path changes nothing. Otherwise the pending record becomes a valid record for that path, page and zoom, stamped `now`. The folder is not touched. |
| MetadataStore.MetadataManager.DocumentChanged | src/core/control/settings/MetadataManager.cpp:45-57 | The pending slot is empty afterwards. With no pending record the folder is untouched, so a second call changes nothing. Otherwise the pending record is flushed as `StoreMetadata` does. |
| MetadataStore.MetadataManager.Close | src/core/control/settings/MetadataManager.cpp:23 | Destroying the manager flushes the pending record as `DocumentChanged` does, including showing one error when the listing fails. |

## Left out

- The mutex around the pending record is not modelled; every operation runs alone.
- The zoom factor is a `double` in the application. Here it is an integer, written in decimal and read back by its leading number. `strtod`, the `double` output format and its precision are not modelled.
- Imbuing the output stream with the classic locale is not modelled; numbers are always written in the "C" format.
- Paths are compared by string equality, not element by element as `std::filesystem::path` compares them.
- Decoding the path with `u8path` is taken never to fail; its error branch is not modelled.
- Failures to create or write the output file are not modelled: a flush always writes its file.
- Directory entries are all plain files; subdirectories and other entry kinds are not modelled.
- `Util::getConfigSubfolder` is not part of this model: the folder is the `MetadataFolder` object the manager is given.
- `XojMsgBox::showErrorToUser` is not part of this model: showing an error is counted in `errorsShown`.
- The warnings logged with `g_warning` are not modelled.
- `g_get_real_time` is not part of this model: the current time is the parameter `now`.
- A listing failure is modelled only as the directory iterator failing after a fixed number of entries (`failsAfter`).
- `MetadataScan.SortNewestFirst`: `std::sort` sorts the vector in place and leaves records of equal time in an unspecified order. Here an insertion sort returns a new sequence, and the contract only fixes the order by time.
- `metadataFile` holds the file's name within the folder, not its full path.
- A path containing a line break is written so that it cannot be read back; `MetadataCodec.LineBreakInPathIsCut` states what is read instead. The round trip and `MetadataScan.FlushThenLookup` therefore require paths without one.
- The eviction and flush lemmas of `MetadataScan` assume a working listing, and some also assume every file can be removed. When the listing fails, or a valid record sits in a file that cannot be removed, the folder afterwards is still given exactly by the contracts of `GetForFile` and `StoreMetadata`. No newest-record guarantee is proved for those cases, because the source gives none.
