# create-m3u, modelled in Dafny

`create-m3u` makes an extended-M3U playlist for each directory it is given. For one canonical directory it does four things:

- It walks the tree and collects the regular files whose extension is one of `mp3`, `ogg`, `flac`, `wav`, `m4a` or `wma`, matched case-sensitively.
- It asks a metadata library for each file's performer, title, album, duration and track number.
- It sorts the resulting track records by artist, album, track number, title, duration and finally path.
- It writes `#EXTM3U` followed by an optional `#EXTINF:<secs>,<artist> - <title>` line and a path line per record. The file is named after the directory's stem, `<stem>.m3u`.

This project models that pipeline, which is all of `src/main.rs` except its I/O edges. For each stage it proves the properties listed under "## Model" below.

Modules, one per stage, in pipeline order:

- `Base`: bytes, `u32`, `Option`, `Ordering`, and UTF-8 well-formedness. `Path::to_str` succeeds exactly when the bytes are UTF-8.
- `Compare`: Rust's derived three-way comparisons on integers, `Option` (with `None` first) and sequences, each proved to be a strict total order.
- `Paths`: `std::path` as a sequence of components. It covers `join`, `file_name`, `extension`, `file_stem` (Rust's split at the last dot), `strip_prefix`, `to_str` and the component-wise `Path` ordering.
- `Classifier`: `VALID_AUDIO_FORMATS` and `keep_file`.
- `Track`: the record `M3uFileInfo`, with `new`, the `add_*` setters, `eq` and `cmp`.
- `Sorting`: `files_info.sort()`, written as an in-place insertion sort on an array. It is proved equal to a reference sort on values, and that reference sort is proved to be the only ascending permutation.
- `Walker`: `append_audio_files` over an abstract directory tree. This is a method with a loop, early returns and recursion, proved equal to the function `Walk`.
- `Seqs`: a generic flat-map. It is the shape shared by the aggregator and the writer, where each input contributes zero or more outputs in order.
- `Aggregator`: `get_audio_files_info`, a method with a loop, proved equal to the function `Records`.
- `M3u`: the playlist file name and `write_m3u_file`. The loop builds the bytes and is proved equal to the function `Content`. A reader for the lines (`SplitLines`, `ParseExtInf`) gives the round trips.
- `Sweep`: `sweep_directory` after `canonicalize`. It covers the not-a-directory exit, the no-audio-files exit, the sort, and the playlist that is written.

Two behaviours of the code worth stating:

- **Playlist name.** The playlist name is built from the directory's `file_stem` (`src/main.rs:303`), so a directory `My.Album` gets `My.m3u` (`M3u.FilenameUsesStem`).
- **Failing entry.** An entry that cannot be reached, or whose metadata cannot be read, makes the walker `return` (`src/main.rs:217-228`). That abandons the entry's remaining siblings as well (`Walker.WalkStopsAtFailure`).

## Model

| member | source | states |
|---|---|---|
| Classifier.FormatsAreText | src/main.rs:139-148 | every allowed token is text, so `keep_file`'s UTF-8 test can never reject one |
| Classifier.KeepFile | src/main.rs:239-251 | a path is kept exactly when it has an extension and that extension is in the allow-list; the text check never changes the answer |
| Classifier.KeepFileByName | src/main.rs:239-251 | a name `stem.token` with a non-empty stem and a dot-free token is kept iff the token is one of the six formats |
| Classifier.KeepsLowerCaseMp3 | src/main.rs:141 | `song.mp3` is kept |
| Classifier.RejectsUpperCaseMp3 | src/main.rs:248 | `song.MP3` is not kept: the comparison is case-sensitive |
| Paths.JoinedName | src/main.rs:223 | a joined name reads back: it is the file name of the joined path, and stripping the directory from that path leaves exactly the name |
| Paths.AsciiPathIsText | src/main.rs:272 | a path whose names are all ASCII is text, and its text is its bytes |
| Paths.StemAndExtension | src/main.rs:241 | an extension exists iff the name has a dot after its first byte; then stem + `.` + extension is the name; without one the stem is the whole name |
| Paths.SplitStemDotToken | src/main.rs:303 | a non-empty stem, a dot and a dot-free token split back into that stem and that token |
| Paths.StripPrefix | src/main.rs:262 | stripping succeeds iff the base is a component prefix, and base + result is the path |
| Paths.ComponentIsComparator | src/main.rs:107 | the component order is a strict total order |
| Paths.PathIsComparator | src/main.rs:107 | the path order is a strict total order |
| Paths.RenderJoined | src/main.rs:262-272 | the bytes of a base joined with a relative path are the base's bytes, a slash, and the relative path's bytes |
| Paths.StrippedToStr | src/main.rs:262-272 | when an absolute path is text, so is the relative path stripped from it |
| Compare.ByteIsComparator | src/main.rs:92 | byte order is a strict total order |
| Compare.U32IsComparator | src/main.rs:98 | `u32` order is a strict total order |
| Compare.OptionIsComparator | src/main.rs:92-105 | `Option` ordering with `None` first is a strict total order whenever the inner order is |
| Compare.LexicographicEqual | src/main.rs:92 | lexicographic comparison is `Equal` iff the sequences are equal |
| Compare.LexicographicReverse | src/main.rs:92 | swapping the arguments of a lexicographic comparison reverses the answer |
| Compare.LexicographicTransitive | src/main.rs:92 | lexicographic `Less` is transitive |
| Compare.LexicographicIsComparator | src/main.rs:92 | lexicographic order over a strict total order is a strict total order |
| Compare.BytesIsComparator | src/main.rs:92 | `String` order (bytewise lexicographic) is a strict total order |
| Track.TrackInfo.New | src/main.rs:39-48 | a fresh record has the given path and every metadata field missing |
| Track.TrackInfo.AddTitle | src/main.rs:50-52 | sets the title and leaves the other five fields unchanged |
| Track.TrackInfo.AddArtist | src/main.rs:53-55 | sets the artist and leaves the other five fields unchanged |
| Track.TrackInfo.AddDuration | src/main.rs:56-58 | sets the duration and leaves the other five fields unchanged |
| Track.TrackInfo.AddTrackNumber | src/main.rs:59-61 | sets the track number and leaves the other five fields unchanged |
| Track.TrackInfo.AddAlbum | src/main.rs:62-64 | sets the album and leaves the other five fields unchanged |
| Track.Eq | src/main.rs:67-78 | field-by-field equality is exactly equality of records |
| Track.Cmp | src/main.rs:88-111 | `Ord::cmp`; its properties are the lemmas `CmpEqualIff`, `CmpIsComparator`, `ArtistDecides`, `KeyPrecedence` and `PathDecidesLast` |
| Track.KeysAreComparators | src/main.rs:92-108 | each of the sort keys (optional text, optional number, path) is a strict total order |
| Track.CmpEqualIff | src/main.rs:88-111 | `cmp` is `Equal` iff the records are equal, so records with different paths never tie |
| Track.CmpReverse | src/main.rs:88-111 | swapping the arguments of `cmp` reverses the answer |
| Track.CmpTransitive | src/main.rs:88-111 | `cmp` `Less` is transitive |
| Track.CmpIsComparator | src/main.rs:88-111 | `cmp` is a strict total order, so the sort is well defined |
| Track.ArtistDecides | src/main.rs:92-93 | records with different artists are ordered by artist alone, and a record without an artist sorts first |
| Track.KeyPrecedence | src/main.rs:95-105 | with equal artists, the first differing key among album, track number, title and duration decides the order alone, and a record missing that key sorts first |
| Track.PathDecidesLast | src/main.rs:107-108 | records that agree on every metadata key are ordered by path |
| Sorting.AdjacentSortedIsSorted | src/main.rs:190 | under a total order, neighbours in order means the whole sequence is in order |
| Sorting.InsertSorted | src/main.rs:190 | inserting into an ascending sequence keeps it ascending and adds exactly that element |
| Sorting.SortedSeqCorrect | src/main.rs:190 | the reference sort yields an ascending permutation of its input |
| Sorting.SortedUnique | src/main.rs:190 | two ascending sequences with the same elements are identical, so every correct sort gives the same result |
| Sorting.SortedIsReference | src/main.rs:190 | an adjacent-ascending permutation of the input is the reference sort of it |
| Sorting.SwapStep | src/main.rs:190 | swapping the element being inserted with a greater left neighbour moves the one out-of-order spot left and keeps the elements |
| Sorting.InsertNext | src/main.rs:190 | one insertion pass extends the ascending prefix by one element, permutes the array, and leaves the elements after position `i` untouched |
| Sorting.Sort | src/main.rs:190 | the array ends ascending, is a permutation of the original, and equals the reference sort of it |
| Walker.AppendAudioFiles | src/main.rs:206-236 | the vector only grows: its old contents followed by exactly what `Walk` finds |
| Walker.WalkEntriesPrefix | src/main.rs:215-236 | handling one more entry appends what that entry yields; a failing entry ends the listing |
| Walker.WalkStopsAtFailure | src/main.rs:217-228 | an unreachable entry, or one with unreadable metadata, abandons every later sibling |
| Walker.FirstFailure | src/main.rs:215-228 | when some entry fails, there is a first one, and every entry before it succeeds |
| Walker.WalkSound | src/main.rs:231-235 | every path found lies below the directory, names a regular file in the tree, and is accepted by `keep_file`; without recursion it is a direct child |
| Walker.WalkEntriesSound | src/main.rs:215-236 | the same for a listing: each path found comes from one of its entries |
| Walker.WalkComplete | src/main.rs:206-236 | in a tree without read failures, a recursive walk finds every regular file that `keep_file` accepts |
| Walker.WalkEntriesComplete | src/main.rs:215-236 | the same for a fully readable listing |
| Walker.WalkNoDuplicates | src/main.rs:206-236 | when sibling names are distinct, no path is found twice |
| Walker.WalkEntriesNoDuplicates | src/main.rs:215-236 | the same for a listing with distinct names |
| Aggregator.DisplayPath | src/main.rs:260-268 | the displayed path is the root-relative path when stripping succeeds, otherwise the absolute path |
| Aggregator.RecordFor | src/main.rs:270-288 | artist, album and title are present iff non-empty; the track number is copied; the duration is present iff reported, in whole seconds rounded down |
| Aggregator.GetAudioFilesInfo | src/main.rs:253-295 | the records built are exactly `Records` of the input paths |
| Aggregator.RecordsAppend | src/main.rs:257-292 | records come in input order: the records of two lists are the first list's followed by the second's |
| Aggregator.RecordsLength | src/main.rs:272-273 | at most one record per path, and exactly one per path iff every absolute path is text |
| Aggregator.RecordsMembers | src/main.rs:257-292 | a record is produced iff it is the record of some input path whose absolute form is text |
| M3u.Decimal | src/main.rs:331-332 | a number is written as a non-empty run of digits with no leading zero unless it is 0 |
| M3u.DecimalRoundTrip | src/main.rs:331-332 | the digits written read back as the same number |
| M3u.ExtInfRoundTrip | src/main.rs:331-334 | a metadata line reads back as its duration and the text `artist - title` |
| M3u.RecordLines | src/main.rs:318-341 | a record writes nothing iff its path is not text; otherwise its path line comes last, preceded by one metadata line iff duration, artist and title are all present |
| M3u.RecordExtInf | src/main.rs:328-335 | a record's metadata line reads back as its duration, artist and title |
| M3u.RecordText | src/main.rs:328-340 | the bytes a record writes: the optional metadata line, then the path and a line feed |
| M3u.JoinLinesAppend | src/main.rs:318-341 | writing two runs of lines writes one after the other |
| M3u.SplitJoinLines | src/main.rs:316-341 | lines without line feeds are recovered by cutting their written form at line feeds |
| M3u.RecordLinesSingle | src/main.rs:328-340 | when no path, artist or title holds a line feed, neither does any line a record writes |
| M3u.LinesSingle | src/main.rs:316-341 | the same for the header and every record's lines |
| M3u.ContentLines | src/main.rs:316-341 | the playlist cut at line feeds is the header followed by each record's lines in order |
| M3u.ContentAppend | src/main.rs:318-341 | records write independently and in order |
| M3u.PrefixStep | src/main.rs:318-341 | each record adds exactly its own lines to the text |
| M3u.Filename | src/main.rs:302-310 | the playlist name always ends in `.m3u` |
| M3u.FilenameOfDottedName | src/main.rs:302-310 | a directory named `stem.token` (non-empty stem, dot-free token) gets `stem.m3u` when the stem is text, and `playlist.m3u` when it is not |
| M3u.FilenameOfPlainName | src/main.rs:302-310 | a directory whose name has no dot gets `<name>.m3u` when the name is text, and `playlist.m3u` when it is not |
| M3u.FilenameOfRoot | src/main.rs:302-304 | the root directory has no stem, so its playlist is `playlist.m3u` |
| M3u.FilePath | src/main.rs:312 | the playlist goes directly inside the scanned directory |
| M3u.StemNonEmpty | src/main.rs:303 | the stem of a canonical directory is never empty |
| M3u.M3uNameParts | src/main.rs:307-308 | a name `stem.m3u` has extension `m3u` and stem `stem` |
| M3u.FilePathParts | src/main.rs:302-312 | the playlist's path has extension `m3u`, and its stem plus `.m3u` is the chosen name |
| M3u.FilenameUsesStem | src/main.rs:303-308 | a directory `My.Album` gets the playlist `My.m3u` |
| M3u.M3uIsNotAudio | src/main.rs:139-148 | `m3u` is not an audio format |
| M3u.PlaylistIsNotAudio | src/main.rs:302-312 | a later scan of the same directory does not take the playlist for an audio file |
| M3u.WriteM3uFile | src/main.rs:297-344 | the file is created at `FilePath` and the bytes written are exactly `Content` of the records |
| Sweep.SortRecords | src/main.rs:190 | the sorted records are the reference sort of the records under `cmp` |
| Sweep.SweepDirectory | src/main.rs:172-198 | a non-directory ends the sweep; no audio file found ends it with nothing written; otherwise the playlist at `FilePath` holds `Content` of the sorted records |
| Sweep.PlaylistOrder | src/main.rs:187-190 | the playlist lists the records in ascending order, each as often as it was found |
| Sweep.ContentIgnoresArrivalOrder | src/main.rs:187-192 | any two arrival orders of the same records give the same playlist text |
| Sweep.FoundRecordPaths | src/main.rs:179-187 | every record's path is non-empty, relative to the scanned directory, completes a walked path, and is text |
| Sweep.EveryRecordListed | src/main.rs:187-192 | every sorted record writes its path line, so no record found is dropped by the writer |

## Left out

- The metadata library (`MediaInfo::new`, `open`, `get_*` and `close`, `src/main.rs:255` and `src/main.rs:276-290`) is a foreign call. It is modelled as a function parameter from the absolute path text to the five answers. The result of `open` is ignored by the code, so a file the library cannot open still yields a record, with whatever that function answers.
- `canonicalize` and its error (`src/main.rs:166-172`) are left out. `SweepDirectory` takes the canonical path and the tree found there as parameters.
- The filesystem is an abstract tree. `read_dir`, `DirEntry` and `metadata` become the `listable`, `reachable` and `metadataReadable` flags. Entry metadata does not follow symbolic links, so a symbolic link is an `Other` node that is neither a directory nor a file.
- `File::create` and the writes (`src/main.rs:313-340`) are left out, along with their I/O errors. `WriteM3uFile` returns the path and the bytes it would write. A write that fails part-way is not modelled.
- The diagnostics written to stderr are left out. `Sweep.Outcome` records only which way out was taken.
- `main` and `env::args` (`src/main.rs:151-163`) are not modelled. Sweeps of different arguments share no state.
- The `Display` impl (`src/main.rs:114-136`) is not modelled, because the pipeline never uses it. The `lazy_static` initialisation is a constant set.
- Rust's `slice::sort` is a library merge sort. It is modelled as insertion sort by adjacent swaps on an array. Both produce an ascending permutation, and `Sorting.SortedUnique` shows there is only one, so the result is the same. Neither stability nor the number of comparisons is modelled.
- Track records are values. Each `add_*` returns an updated record rather than updating the struct in place. The struct is a local value built by one owner, so there is no aliasing to lose. The borrowed `&Path` becomes a copied path.
- Paths are only the component forms a canonical path has: the root directory and names. `.`, `..` and Windows prefixes are not modelled.
- `M3u.ContentLines` requires that no path, artist or title holds a line feed. Without that, the written text cannot be cut back into records. The writer itself does not check this; it writes the bytes unchanged (`M3u.WriteM3uFile` holds for all inputs).
