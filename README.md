# Jellyfin Database Tweaker: the processing thread, in Dafny

Jellyfin Database Tweaker opens a Jellyfin library database (SQLite) and fills in metadata Jellyfin left empty. Its worker thread, `ProcessThread`, has two halves:

- **Four generators** walk the catalog rows that lack something and plan updates:
  - for playlists and albums: an artist and album name taken from their folder or file names, and a cover descriptor with a blurhash;
  - for tracks: a track number taken from the file name, or from the track's position in its folder;
  - for playlists whose track list is still the empty sentinel: the `.mp3` files of their folder.
- **Four appliers** then write those updates back, one UPDATE statement per planned operation.

Throughout, the thread counts operations for a progress bar and checks an abort flag that the user interface may raise.

This project models that pipeline and proves what it does:

- `Catalog`: the catalog table `TypedBaseItems`, reduced to the columns the thread reads or writes, and the SQL pieces whose meaning matters. These are the four selections, the `LIKE` pattern of the playlist update, the SET clause of the two metadata updates, and the JSON document of a track list.
- `Files`: the file system and the image decoder, as plain values. Each field answers one query the program asks of the disk: existence, directory listings (or the exception `directory_iterator` throws), decoded images, modification times, canonical paths, and the text of filesystem errors.
- `Paths`, `Strings` and `Numbers`: `std::filesystem::path` (stem, extension, parent, ordering in a `std::set`), `QString::split`/`join`, `std::to_string` and `QString::toInt`. These are stated closely enough to prove the naming rules.
- `Naming`: the naming rules.
  - `artistAndAlbumMetadata`.
  - The playlist fallback chain: folder stem, then file stem, then "Unknown".
  - The album fallback.
  - The track-number rule: `NN - Title`, `1-NN - Title`, and later discs counted among the sorted `.mp3` siblings.
- `Cover`: `albumBlurhash`.
  - The first directory entry whose path contains the configured image name.
  - The blurhash component grid in integer arithmetic.
  - The .NET tick conversion.
  - The `*`-joined descriptor.
  - The blurhash encoder itself is a parameter.
- `Operations`: the operation records and reference definitions.
  - What each generator produces, as a fold over its selected rows that stops at the first exception.
  - What each applier does to the table, row by row.
  - Lemmas saying which rows change, which columns, and to what.
- `Pipeline`: the whole run.
  - The plan the four generators build.
  - The catalog the four appliers leave.
  - How much of the plan reached the catalog when an abort or an exception cut the run short.
  - The operation counts behind the progress bar.
- `ProcessThreads`: the thread as a class.
  - It holds the configuration, `m_abort`, `m_error`, `m_dbModified`, the progress counters `operationCount`, `totalOperations` and `currentProgress`, the catalog it updates, and the progress values it has emitted.
  - Its methods are the generators, the appliers, `countOperations`, `checkProgress` and `run`, with their loops.
  - Each method is proved against the reference definitions above.

The abort requested by the user interface thread is a schedule, `stopAt`: the check of `m_abort` at which `stop()` becomes visible. `Valid()` ties the flag to that schedule.

The clock that stamps `DateLastSaved` is a sequence of readings, passed as a parameter. The `k`-th track list written is saved at the `k`-th reading.

The model follows the code throughout, including the two places where the code is evidently mistaken (see Findings). There is one exception: after a failed prepare, the model treats SQLite calls on the null statement as doing nothing (see Left out). Where the program's documentation and its code disagree, it follows the code as well:

- The tick value is the modification time in milliseconds times 10000, plus `621355968000009999`. That is 9999 ticks more than the Unix epoch in .NET ticks (`Cover.Ticks`).
- The album generator never checks that an album folder exists before reading it. A folder that is gone makes `directory_iterator` (or, in the album update, `canonical`) throw, and the run ends with that exception.
- An empty cover descriptor is still written: as the empty string, not left out of the update.
- `emit progress(100)` is skipped when nothing was counted, when an abort check ends the run before the last update, and after an exception. It is still emitted when the abort lands inside the track list update, because no check of `m_abort` follows that phase (`ProcessThreads.ProcessThread.Run`).

## Model

| member | source | states |
|---|---|---|
| Catalog.Select | ProcessThread.cpp:224 | a selection holds exactly the table's rows that satisfy its WHERE clause, and no more rows than the table |
| Catalog.LikePrefix | ProcessThread.cpp:559 | a `literal%` pattern without wildcards in the literal matches exactly the texts that start with the literal up to ASCII case, as SQLite's LIKE does |
| Catalog.BelowPatternIsPrefix | ProcessThread.cpp:577 | the playlist update's pattern `folder\%` selects exactly the paths that begin with the folder and a separator, up to ASCII case, when the folder's name holds no wildcard |
| Catalog.SetClauseAccepted | ProcessThread.cpp:557-559 | the SET clause as the program assembles it is acceptable SQL exactly when images are processed: with artists alone it ends in a comma, with neither it is empty |
| Catalog.SetClauseJoinedAccepted | ProcessThread.cpp:557-559 | the clause with its assignments joined by commas is acceptable exactly when artists or images are processed |
| Catalog.AssignMetadata | ProcessThread.cpp:602-613 | a metadata update writes the artist, album-artist and album columns only when artists are processed, the image column only when images are processed, and leaves identity, track number and data alone |
| Catalog.LinkedChildren | ProcessThread.cpp:803-812 | the track list has one entry per track, the i-th built from the i-th track and the i-th id |
| Catalog.TracklistDocumentFields | ProcessThread.cpp:803-816 | the written document keeps every field of the empty playlist except LinkedChildren and DateLastSaved; DateLastSaved becomes the given time; LinkedChildren[i] is {Path: file name of track i, Type: "Manual", ItemId: id i} |
| Catalog.TracklistDocumentIsEmpty | ProcessThread.cpp:58-59 | a written document equals the empty-playlist sentinel only when it has no tracks and the sentinel's own save date |
| Cover.Grid | ProcessThread.cpp:946-950 | both component counts lie in 0..5, and the longer side (each side, for a square) gets 5 |
| Cover.GridShortSide | ProcessThread.cpp:946-950 | the shorter side gets the largest count whose product with the integer aspect ratio stays within 5 |
| Cover.GridTranspose | ProcessThread.cpp:946-950 | swapping width and height swaps the two counts |
| Cover.GridDegenerate | ProcessThread.cpp:946-950 | an image six or more times wider than high gets no components across its height, and symmetrically |
| Cover.Ticks | ProcessThread.cpp:963 | the tick value is the epoch in .NET ticks plus the milliseconds times 10000 plus 9999; it always ends in 9999 and gives the milliseconds back |
| Cover.TicksOrder | ProcessThread.cpp:963 | a later modification time gives a larger tick value, and conversely |
| Cover.DescriptorFields | ProcessThread.cpp:965-966 | splitting a descriptor on '*' gives back the path, the tick count, "Primary", the width, the height and then the hash, with the numbers parsed back to their values |
| Cover.DescriptorStarts | ProcessThread.cpp:965-966 | a descriptor is never empty and starts with the image path followed by '*' |
| Cover.FirstCover | ProcessThread.cpp:916-923 | the entry found is one whose full path contains the image name, and every entry before it (every entry, when none is found) does not |
| Cover.CoverDescriptorEmpty | ProcessThread.cpp:911-975 | the descriptor is empty exactly when no entry is taken for the cover, or the cover does not decode, or it does not have 3 channels; otherwise it starts with the canonical path of that cover |
| Naming.ArtistAndAlbum | ProcessThread.cpp:896-908 | without " - " both halves are empty; otherwise the artist is the text before the first " - " and the album everything after it |
| Naming.ArtistAndAlbumRejoins | ProcessThread.cpp:900-904 | when the separator occurs, artist + " - " + album rebuilds the text, and the artist holds no separator |
| Naming.ArtistAndAlbumOf | ProcessThread.cpp:900-904 | "A - B" gives (A, B), and "A - B - C" gives (A, "B - C"), whatever B holds |
| Naming.ArtistAndAlbumEmpty | ProcessThread.cpp:259-262 | the result the code treats as "no metadata" comes exactly from a text without the separator or from the separator alone |
| Naming.PlaylistMetadata | ProcessThread.cpp:258-271 | the artist is never empty; the result is ("Unknown", file stem) or a pair with a non-empty album that rejoins to the folder stem or the file stem |
| Naming.PlaylistMetadataFromFolder | ProcessThread.cpp:258-265 | a folder named "Artist - Album" decides, whatever the playlist file is called |
| Naming.PlaylistMetadataFromFile | ProcessThread.cpp:259-265 | with no separator in the folder name, a file named "Artist - Album" decides |
| Naming.PlaylistMetadataUnknown | ProcessThread.cpp:267-271 | with a separator in neither name, the artist is "Unknown" and the album the file stem |
| Naming.PlaylistMetadataHalfNamedFolder | ProcessThread.cpp:258-271 | a folder named "Artist - " is not retried with the file name: its empty album sends the playlist to the "Unknown" fallback |
| Naming.AlbumMetadata | ProcessThread.cpp:336-346 | an album stem with the separator, other than the separator alone, rejoins from the pair (an empty half is kept); a stem without it gives ("Unknown", stem) |
| Naming.TrackRule | ProcessThread.cpp:400-439 | a stem without " - " gives no number; a number part without '-' gives toInt of that part |
| Naming.NumberPart | ProcessThread.cpp:401-408 | a number part without spaces is the first part of "part - title" |
| Naming.DiscParts | ProcessThread.cpp:409-416 | a disc without '-' is the first part of "disc-number", and a number without '-' the second and last |
| Naming.TrackRulePlain | ProcessThread.cpp:436-439 | "NN - Title" gives NN |
| Naming.TrackRuleFirstDisc | ProcessThread.cpp:414-416 | "1-NN - Title" gives NN, zero padded or not |
| Naming.DiscRule | ProcessThread.cpp:409-434 | for "D-NN - Title", disc "1" reads the number (up to a further '-') and any other disc counts the siblings |
| Naming.TrackRuleLaterDisc | ProcessThread.cpp:418-434 | a disc other than "1" counts the siblings, whatever the number part says |
| Naming.Mp3IsExtension | ProcessThread.cpp:427 | a name is taken for an .mp3 exactly when its path extension is ".mp3" |
| Numbers.ParseIntToString | ProcessThread.cpp:965-966 | the decimal rendering of an integer parses back to that integer |
| Numbers.ToInt | ProcessThread.cpp:438 | toInt always gives a 32-bit value |
| Numbers.ToIntOfIntToString | ProcessThread.cpp:438 | toInt reads back every 32-bit value that std::to_string renders |
| Numbers.ToIntOfDigits | ProcessThread.cpp:438 | a non-empty digit string within range reads as its value |
| Numbers.ToIntZeroPadded | ProcessThread.cpp:416 | zero padding is accepted: "03" reads as 3 |
| Numbers.ToIntWithoutDigits | ProcessThread.cpp:438 | text holding no digit reads as 0 |
| Paths.StemAndExtension | ProcessThread.cpp:400 | stem and extension together give the file name back, and a non-empty extension is a dot followed by text without dots |
| Paths.LessIrreflexive | ProcessThread.cpp:420 | no name sorts before itself in the order of a std::set of paths |
| Paths.LessTransitive | ProcessThread.cpp:420 | that order is transitive |
| Paths.LessTotal | ProcessThread.cpp:420 | any two different names are ordered one way or the other |
| Paths.InsertSorted | ProcessThread.cpp:422 | inserting into a set kept sorted keeps it strictly sorted and adds exactly the new name |
| Paths.SortedSetSpec | ProcessThread.cpp:420-422 | the set built from a listing holds each listed name exactly once, in increasing order |
| Paths.SortedUnique | ProcessThread.cpp:485-488 | two strictly sorted sequences with the same elements are equal, so the set's order is determined |
| Operations.PlaylistImageStep | ProcessThread.cpp:243-273 | one playlist row makes at most one operation |
| Operations.PlaylistImageOpsFacts | ProcessThread.cpp:217-290 | every planned playlist operation belongs to a selected playlist whose file exists, carries the cover descriptor of its folder and the names PlaylistMetadata gives; there is at most one per selected row, and none when the phase is off |
| Operations.CoveringOp | ProcessThread.cpp:326-327 | the operation found is the first playlist operation whose playlist lies directly in the album folder |
| Operations.AlbumStepFor | ProcessThread.cpp:326-349 | an album row's operation copies the first playlist operation of its folder when there is one, and otherwise has the album's names and its own cover |
| Operations.AlbumOpsReuse | ProcessThread.cpp:293-362 | exactly one album operation per selected album, in order, each as AlbumOpFor says |
| Operations.TrackNumberStepFits | ProcessThread.cpp:391-443 | a track row's operation numbers that row's path with the number its name or its folder gives |
| Operations.TrackNumberOpsFacts | ProcessThread.cpp:366-452 | every planned number belongs to an existing selected track whose name splits on " - ", and is the number the name or its folder gives; at most one per row, none when the phase is off |
| Operations.Mp3Set | ProcessThread.cpp:485-488 | the set of a folder's .mp3 entries is strictly sorted and holds exactly the listed .mp3 names |
| Operations.CandidateStep | ProcessThread.cpp:481-490 | a first-pass operation is for the row's playlist, whose folder exists, and lists that folder's .mp3 files with no ids yet |
| Operations.TrackRowsMembers | ProcessThread.cpp:504 | the id lookup finds exactly the track rows whose path renders as the track's |
| Operations.LookupTrackFacts | ProcessThread.cpp:522-529 | a lookup misses exactly when no track row has the path, and otherwise reads the id of one that has |
| Operations.SecondRowAmongExists | ProcessThread.cpp:531-533 | looking up the first j tracks sees a second row exactly when one of them has two rows |
| Operations.DuplicateSeenExists | ProcessThread.cpp:509-541 | the second pass leaves the "another row" error exactly when some planned track has two rows |
| Operations.TracklistCandidatesWithin | ProcessThread.cpp:472-491 | the first pass makes at most one operation per selected playlist |
| Operations.TrackIdsFacts | ProcessThread.cpp:520-529 | the second pass gives exactly one id per track, in order, each that of the track's row |
| Operations.ResolveFits | ProcessThread.cpp:509-541 | resolving a first-pass operation keeps its path and gives a track list that fits: the folder's .mp3 files with one id per track, each that of the track's row |
| Operations.TracklistOpsFacts | ProcessThread.cpp:455-552 | every planned track list is a selected playlist whose folder exists; its tracks are the folder's .mp3 files sorted by name, each once, with exactly one id per track in the same order |
| Operations.ClauseCompilesAsWritten | ProcessThread.cpp:557-559 | the metadata updates' clause as written compiles exactly when images are processed, and it differs from the comma-joined clause exactly when artists are processed without images |
| Operations.ApplyPlaylistImage | ProcessThread.cpp:577-623 | only audio rows whose path is LIKE the playlist folder plus "\%" change, and only when the folder exists; they get the operation's names and cover as the options select; nothing changes when the SET clause as written does not compile |
| Operations.ApplyPlaylistImages | ProcessThread.cpp:564-630 | the phase keeps every row's identity, changes only metadata columns, and leaves alone a row below none of the folders |
| Operations.PlaylistImagesWithoutImages | ProcessThread.cpp:557-623 | without images processed the playlist update's clause does not compile and the phase writes no row, whatever the artist option says |
| Operations.ApplyAlbum | ProcessThread.cpp:660-703 | canonical() throws exactly when the album folder is gone; otherwise only album rows without media type at the canonical path change, to WriteMetadata's values, and only when the SET clause as written compiles |
| Operations.AlbumsFacts | ProcessThread.cpp:637-715 | the album phase fails exactly when one of its folders is gone; otherwise only metadata columns change, and rows at none of the canonical paths are untouched |
| Operations.AlbumsWithoutImages | ProcessThread.cpp:637-715 | without images processed the album update's clause does not compile: a folder that is gone still throws, but no row is written |
| Operations.ApplyAlbumsSticky | ProcessThread.cpp:660 | the exception of the first album folder that is gone ends the phase: later operations change nothing |
| Operations.ApplyTrackNumber | ProcessThread.cpp:739-751 | exactly the track rows at the operation's path get its number |
| Operations.ApplyTrackNumbers | ProcessThread.cpp:730-758 | only track numbers change, and a row no operation names is untouched |
| Operations.TrackNumberLastWrite | ProcessThread.cpp:730-758 | a row named by an operation ends with the number of the last operation naming it |
| Operations.ApplyTracklistAt | ProcessThread.cpp:771-772 | every playlist row at the operation's path gets the operation's document, and every other row is untouched |
| Operations.TracklistsFacts | ProcessThread.cpp:766-843 | the track list phase changes only the data column, and a row no operation names is untouched |
| Operations.TracklistsKeepRow | ProcessThread.cpp:771-772 | each row keeps every column but data |
| Operations.TracklistLastWrite | ProcessThread.cpp:781-838 | a playlist row named by an operation ends with the document of the last operation naming it, saved at that operation's clock reading |
| Pipeline.PlanKeepsIdentity | ProcessThread.cpp:139-164 | the updates keep the number of rows and never write a row's id, type, path or media type |
| Pipeline.TruncateBeforeUpdates | ProcessThread.cpp:103-133 | a run stopped during the generators leaves the catalog as it was |
| Pipeline.StoppedInPlaylistImages | ProcessThread.cpp:140-146 | stopped in the playlist update, the catalog holds exactly the playlist operations done so far |
| Pipeline.StoppedInAlbums | ProcessThread.cpp:148-154 | stopped in the album update, the catalog holds the playlist phase and the album operations done so far |
| Pipeline.ThrewInAlbums | ProcessThread.cpp:148-154 | an exception in the album update is the result of the whole update sequence |
| Pipeline.ThrewAtAlbum | ProcessThread.cpp:148-154 | when the album the run reached has a folder that is gone, the whole update sequence throws canonical's exception |
| Pipeline.StoppedInTrackNumbers | ProcessThread.cpp:156-162 | stopped in the track number update, the catalog holds the earlier phases and the numbers written so far |
| Pipeline.StoppedInTracklists | ProcessThread.cpp:164-169 | stopped in the track list update, the catalog holds the earlier phases and the lists written so far |
| Pipeline.PercentIsDiv | ProcessThread.cpp:885 | the progress value is operations times 100, divided by the total |
| Pipeline.PercentMonotone | ProcessThread.cpp:885 | more operations done never lower the progress value |
| Pipeline.PercentWithinTotal | ProcessThread.cpp:883-891 | within the total, the progress value lies in 0..100, and it is 100 at the total |
| Pipeline.PlanWithinCount | ProcessThread.cpp:846-880 | a generated plan has one operation at most per selected row and exactly one per selected album, none for a phase that is off, an id for every track, and so at most the intended count of steps |
| Pipeline.PlaylistImagesWithin | ProcessThread.cpp:848-853 | the playlist generator makes at most as many operations as countOperations counts playlists |
| Pipeline.TracklistsWithin | ProcessThread.cpp:856-861 | the track list generator makes at most as many operations as track lists counted |
| Pipeline.TrackNumbersWithin | ProcessThread.cpp:864-869 | the track number generator makes at most as many operations as tracks counted |
| Pipeline.AlbumsWithin | ProcessThread.cpp:872-877 | the album generator makes exactly one operation per album counted |
| Pipeline.CountCeiling | ProcessThread.cpp:846-880 | the count as written lies between half the intended count and the intended count, and equals it exactly when no album is selected; so the intended steps reach at most 200 percent of it, and exactly 100 without albums |
| Pipeline.AlbumCountedOnce | ProcessThread.cpp:872-877 | with images and albums processed and a catalog of one album, no playlist is selected and the metadata clause compiles; the count as written is 1 while a completed run counts 2 steps, so progress reaches 200; counted twice, it reaches 100 |
| Pipeline.NamedTrackIsNumbered | ProcessThread.cpp:730-758 | a row named by some track number operation has a number afterwards |
| Pipeline.UnnamedTrackStep | ProcessThread.cpp:391-443 | a track row that no planned operation names makes no operation |
| Pipeline.RecheckSkipped | ProcessThread.cpp:366-452 | a track still without a number after the writes is one the generator skipped, and it skips it again |
| Pipeline.UnnumberedUntouched | ProcessThread.cpp:718-763 | a track left without a number was named by no operation and is unchanged |
| Pipeline.TrackNumbersIdempotent | ProcessThread.cpp:366-452 | once its numbers are written, the track number generator finds nothing more to number |
| ProcessThreads.ProcessThread.constructor | ProcessThread.cpp:70-78 | a new thread holds its configuration and catalog, with the abort flag clear, no error, nothing modified and nothing counted |
| ProcessThreads.ProcessThread.PollAbort | ProcessThread.cpp:105-108 | one read of m_abort: it turns true exactly at the scheduled check and stays true |
| ProcessThreads.ProcessThread.CheckProgress | ProcessThread.cpp:883-893 | currentProgress becomes the share of the total in percent, emitted only when it changed; the emitted values never go down |
| ProcessThreads.ProcessThread.Tick | ProcessThread.cpp:579 | one operation counted without a progress check |
| ProcessThreads.ProcessThread.Advance | ProcessThread.cpp:273-275 | the operations one row added are counted and reported |
| ProcessThreads.ProcessThread.CountOperations | ProcessThread.cpp:846-880 | the total grows as the program counts: two steps per selected playlist, track list and track and one per selected album, each only when its phase is on (OperationsToCount); the ghost budget grows by the intended count, two steps per album as well (IntendedOperations) |
| ProcessThreads.ProcessThread.AlbumBlurhash | ProcessThread.cpp:911-975 | the descriptor computed is CoverDescriptor of the folder, or the exception directory_iterator or canonical throws |
| ProcessThreads.ProcessThread.CoverEntry | ProcessThread.cpp:916-923 | the loop finds the first entry whose path contains the image name |
| ProcessThreads.ProcessThread.SiblingPosition | ProcessThread.cpp:420-433 | a later disc's number is 1 plus the .mp3 files sorting before the track, or 1 plus all of them when the walk does not meet it; an unlistable folder throws |
| ProcessThreads.ProcessThread.IsEntryOf | ProcessThread.cpp:428 | an entry of the track's folder is the track exactly when it has the track's file name |
| ProcessThreads.ProcessThread.CountBefore | ProcessThread.cpp:424-431 | the walk stops at the track or at the end, and counts 1 plus the .mp3 names it passed |
| ProcessThreads.ProcessThread.Mp3Tracks | ProcessThread.cpp:485-488 | the tracks are the folder's .mp3 entries as the std::set orders them, or the exception of an unlistable folder |
| ProcessThreads.ProcessThread.TracklistPayload | ProcessThread.cpp:803-816 | the document built track by track is TracklistDocument of the operation and the save time |
| ProcessThreads.ProcessThread.GeneratePlaylistImageOperations | ProcessThread.cpp:217-290 | the operations are the fold over the selected rows; an abort returns those gathered so far with the abort text in m_error; one operation is counted per operation made |
| ProcessThreads.ProcessThread.GatherPlaylistImages | ProcessThread.cpp:234-276 | the loop's result is the fold over all rows, or over those before the abort |
| ProcessThreads.ProcessThread.PlaylistImageRow | ProcessThread.cpp:243-273 | one row's body computes that row's step |
| ProcessThreads.ProcessThread.GenerateAlbumsOperationsData | ProcessThread.cpp:293-362 | the album operations are the fold over the selected album rows, cut short by an abort as above |
| ProcessThreads.ProcessThread.GatherAlbums | ProcessThread.cpp:309-354 | the loop's result is the fold over all album rows, or over those before the abort |
| ProcessThreads.ProcessThread.AlbumRow | ProcessThread.cpp:318-351 | one album row's body computes that row's step |
| ProcessThreads.ProcessThread.GenerateTracksNumberOperationData | ProcessThread.cpp:366-452 | the track number operations are the fold over the selected tracks, cut short by an abort as above |
| ProcessThreads.ProcessThread.GatherTrackNumbers | ProcessThread.cpp:382-444 | the loop's result is the fold over all track rows, or over those before the abort |
| ProcessThreads.ProcessThread.TrackNumberRow | ProcessThread.cpp:391-441 | one track row's body computes that row's step |
| ProcessThreads.ProcessThread.GeneratePlaylistTracksOperations | ProcessThread.cpp:455-552 | without an abort the result is GenerateTracklists and one operation is counted per list; m_error holds the "another row" text exactly when a track has two rows |
| ProcessThreads.ProcessThread.TracklistPasses | ProcessThread.cpp:472-542 | the two passes compute GenerateTracklists when no abort intervenes |
| ProcessThreads.ProcessThread.GatherTracklistCandidates | ProcessThread.cpp:472-491 | the first pass is the fold over the selected playlists, and counts nothing |
| ProcessThreads.ProcessThread.TracklistRow | ProcessThread.cpp:481-490 | one playlist's first-pass body computes its step |
| ProcessThreads.ProcessThread.ResolveTrackIds | ProcessThread.cpp:503-542 | the second pass is the fold of ResolveStep over the candidates, counting each, with the "another row" text left exactly when a duplicate was seen |
| ProcessThreads.ProcessThread.ResolveRow | ProcessThread.cpp:509-541 | one candidate is resolved and counted, and the duplicate flag in m_error is carried forward |
| ProcessThreads.ProcessThread.ResolveOp | ProcessThread.cpp:520-539 | the inner loop appends the id of each track, and leaves the "another row" text exactly when an earlier lookup or one of these found a second row |
| ProcessThreads.ProcessThread.UpdatePlaylistImages | ProcessThread.cpp:555-634 | the catalog becomes the operations done applied in order, each counted; an abort stops the loop with the abort text in m_error |
| ProcessThreads.ProcessThread.PlaylistImageUpdate | ProcessThread.cpp:577-629 | one operation is counted first and then applied |
| ProcessThreads.ProcessThread.UpdateAlbumOperations | ProcessThread.cpp:637-715 | the catalog becomes the album operations done applied in order, under the SET clause as written; a folder that is gone throws canonical's exception before being counted, and that exception is the whole phase's; nothing happens when the phase is off |
| ProcessThreads.ProcessThread.AlbumUpdates | ProcessThread.cpp:649-710 | the loop applies the operations until an abort or the first exception, which is that of the whole phase |
| ProcessThreads.ProcessThread.AlbumTurn | ProcessThread.cpp:651-709 | one turn: an abort check that changes nothing when it stops, else the next operation |
| ProcessThreads.ProcessThread.AlbumNext | ProcessThread.cpp:660-709 | the next album operation extends those applied by one, or ends the phase with its exception and changes nothing |
| ProcessThreads.ProcessThread.AlbumUpdate | ProcessThread.cpp:660-664 | canonical first: a folder that is gone throws with nothing changed; otherwise the operation is counted and applied |
| ProcessThreads.ProcessThread.UpdateTrackNumbers | ProcessThread.cpp:718-763 | the catalog becomes the number operations done applied in order, each counted; an abort stops the loop with the abort text |
| ProcessThreads.ProcessThread.TrackNumberUpdate | ProcessThread.cpp:739-757 | one number is written, then counted |
| ProcessThreads.ProcessThread.UpdatePlaylistTracks | ProcessThread.cpp:766-843 | the catalog becomes the track lists done applied in order, the k-th saved at the clock's k-th reading; an abort stops the loop with the abort text |
| ProcessThreads.ProcessThread.TracklistUpdates | ProcessThread.cpp:781-838 | the loop writes the lists until an abort, each counted |
| ProcessThreads.ProcessThread.TracklistTurn | ProcessThread.cpp:783-837 | one turn: an abort check that changes nothing when it stops, else the next list |
| ProcessThreads.ProcessThread.TracklistNext | ProcessThread.cpp:803-837 | the next list, saved at its clock reading, extends those written by one |
| ProcessThreads.ProcessThread.TracklistUpdate | ProcessThread.cpp:803-837 | one document is built, written over the playlist's rows, then counted |
| ProcessThreads.ProcessThread.Run | ProcessThread.cpp:81-179 | the run does nothing exactly when nothing is counted; an abort leaves its text and an exception "Exception: " and its text; the catalog changes only once updating began, and then holds exactly the part of the generated plan that was reached; a completed run counts every step of the plan, at most the intended count, and keeps only the "another row" error; the total is the count as written; the values emitted while counting start at 0, never go down and stay within the share the intended count makes of the total, and progress 100 follows after completion or an abort inside the last update; every value lies within 0..200, and within 0..100, never going down, when no album is selected |
| ProcessThreads.ProcessThread.Process | ProcessThread.cpp:99-169 | the same as Run for the part of run after a count that found work, given the total as countOperations writes it and the intended count as budget |
| ProcessThreads.ProcessThread.Conclude | ProcessThread.cpp:135-169 | after the generators, the database is marked modified exactly when no abort was seen and no generator threw, and the catalog is the part of the plan reached |
| ProcessThreads.ProcessThread.UpdateAndReport | ProcessThread.cpp:139-169 | the updates of a plan, then progress 100 unless an abort check before the last update or an exception ended them |
| ProcessThreads.ProcessThread.Fail | ProcessThread.cpp:105-133 | a run stopped during the generators ends with the abort text or the exception's, and no further progress value |
| ProcessThreads.ProcessThread.Report | ProcessThread.cpp:164-174 | an exception sets "Exception: " and its text; progress 100 is emitted exactly when neither an exception nor an abort check stopped the updates |
| ProcessThreads.ProcessThread.GenerateAll | ProcessThread.cpp:103-133 | without an abort the four generators compute Generate, in order, counting one step per operation |
| ProcessThreads.ProcessThread.GenerateFromTracklists | ProcessThread.cpp:111-133 | the generators after the playlist one compute the rest of the plan |
| ProcessThreads.ProcessThread.GenerateFromTrackNumbers | ProcessThread.cpp:119-133 | the track number and album generators compute the rest of the plan |
| ProcessThreads.ProcessThread.PlaylistImagePhase | ProcessThread.cpp:103-109 | the playlist generator and the abort check after it |
| ProcessThreads.ProcessThread.TracklistPhase | ProcessThread.cpp:111-117 | the track list generator and the abort check after it |
| ProcessThreads.ProcessThread.TrackNumberPhase | ProcessThread.cpp:119-125 | the track number generator and the abort check after it |
| ProcessThreads.ProcessThread.AlbumPhase | ProcessThread.cpp:127-133 | the album generator, given the playlist operations, and the abort check after it |
| ProcessThreads.ProcessThread.ApplyAll | ProcessThread.cpp:139-164 | the four updates leave the catalog ApplyPlan gives for the part of the plan reached; an abort check is made after each update but the last |
| ProcessThreads.ProcessThread.ApplyFromAlbums | ProcessThread.cpp:148-164 | the updates from the album one on, over the catalog the playlist update left |
| ProcessThreads.ProcessThread.ApplyFromTrackNumbers | ProcessThread.cpp:156-164 | the track number and track list updates, over the catalog the album update left |
| ProcessThreads.ProcessThread.PlaylistImageStage | ProcessThread.cpp:140-146 | the playlist update and the abort check after it |
| ProcessThreads.ProcessThread.AlbumStage | ProcessThread.cpp:148-154 | the album update and, unless it threw, the abort check after it |
| ProcessThreads.ProcessThread.TrackNumberStage | ProcessThread.cpp:156-162 | the track number update and the abort check after it |
| ProcessThreads.ProcessThread.ApplyTracklistPhase | ProcessThread.cpp:164-169 | the track list update, with no abort check after it |
| ProcessThreads.CountMp3Distinct | ProcessThread.cpp:424-431 | the .mp3 names counted in a prefix of the sorted set are as many as the distinct .mp3 names in it |
| ProcessThreads.WalkPosition | ProcessThread.cpp:424-433 | the walk's count equals TrackPosition: 1 plus the .mp3 names before the track |
| ProcessThreads.ChildIsTrack | ProcessThread.cpp:428 | an entry of the track's folder is the track exactly when it carries the track's file name |
| ProcessThreads.SignalsWithin | ProcessThread.cpp:883-893 | a log whose counted values start at 0, never go down and end within a bound, followed by an optional final 100, stays within 0..100 or 0..bound, and with a bound of at most 100 never goes down |
| ProcessThreads.RunSignals | ProcessThread.cpp:81-179 | the log of a run over the count as written stays within 0..200, and within 0..100, never going down, when no album is selected |
| ProcessThreads.LookupIds | ProcessThread.cpp:520-533 | the ids looked up are the fold of the lookups, and a second row is reported exactly when one of the tracks has two |

## Left out

- SQLite itself: prepare, step, bind, reset and finalize are replaced by selections and row updates on a `seq<Row>`. The texts `checkSQLiteError` and the "Unable to ..." branches leave in `m_error` are not modelled, with two exceptions. The line-532 text is left when a track path has two rows. Reading the id of a track without a row throws, with libstdc++'s text for a `std::string` built from a null pointer; that text is an assumption about the standard library. The line-532 text is recorded after all the lookups, not while they run.
- Operations.ApplyAlbum and ProcessThreads.ProcessThread.UpdateAlbumOperations: when images are not processed, the prepare of the album update fails (ProcessThread.cpp:647), but the loop at lines 649-710 goes on using the null statement it leaves. The model treats those calls as harmless: it writes nothing and goes on to the next album. `bind` and `step` do return an error on a null statement, but `sqlite3_clear_bindings` (ProcessThread.cpp:704) dereferences it unless SQLite is built with SQLITE_ENABLE_API_ARMOR. A default build would therefore crash on the first album that exists on disk, and the run would never reach checkProgress (line 709), the later updates or progress(100). The playlist update never meets a null statement, because playlist operations exist only when images are processed (line 221), and then its clause compiles.
- Text encodings: the model treats text as a sequence of characters and every conversion between `char`, `wchar_t` and `QString` as the identity. The program converts in several places:
  - `std::filesystem::path` built from the database's UTF-8 text (ProcessThread.cpp:245, 320, 393, 482), which the Windows library decodes in the ANSI code page;
  - `path::string()` (ProcessThread.cpp:270, 345, 400, 522, 577, 660, 741, 820);
  - `toStdString()` (ProcessThread.cpp:903-904, 918);
  - `QString::fromLatin1(e.what())` for the exception text (ProcessThread.cpp:173).

  The model assumes narrow text is UTF-8 and that these conversions are lossless. For non-ASCII file names the existence checks, the id lookups, the names written and the error text may differ from the model's. `Numbers.Trim` skips ASCII white space only, where `QString::toInt` (ProcessThread.cpp:416, 438) skips any character `QChar::isSpace` accepts.
- The `abort()` calls after a failed prepare (ProcessThread.cpp:230, 468) end the process and are outside the model.
- The `catch(...)` branch ("Unknown exception"): every exception the model raises is a `std::exception`.
- Qt signals and text messages, `QCoreApplication::processEvents`, and the threading. The emitted progress values are kept as a log. `stop()` from the user interface thread is the abort schedule `stopAt`.
- `blurhash::encode`, `stbi_load`, QImage and `QFileInfo` are fields or parameters (`Cover.Encoder`, `Files.FileSystem`). The `scaledToHeight` and `toPixelFormat` results are discarded by the program (ProcessThread.cpp:955-956), so the model hashes the image as decoded.
- `std::filesystem::canonical` is an arbitrary function of the file system. `QDateTime::currentDateTimeUtc()` is the clock parameter.
- JSON bytes: the data column holds a JSON value, the empty-playlist BLOB is that value, and compact serialisation is left out. So a stored document whose bytes differ from the sentinel but which holds the same value would be selected by the model but not by the program.
- The LIKE pattern is modelled exactly, wildcards included. A folder whose name holds '_' or '%' therefore also matches sibling folders, as it does in the program.
- ProcessThreads.ProcessThread.GeneratePlaylistTracksOperations: after an abort it promises only that a list is returned, not which. The caller discards that list, so the model does not track it. The same holds for TracklistPasses, GatherTracklistCandidates and ResolveTrackIds.
- ProcessThreads.ProcessThread.CheckProgress: computes (n·100)/total over unbounded integers. The program is built for Windows (`STBI_WINDOWS_UTF8` at ProcessThread.cpp:48, `stbi_convert_wchar_to_utf8` at :929), where `unsigned long` has 32 bits, so the product `operationNumber*100` wraps once a run reaches 42,949,673 operations (2^32/100, rounded up); the model does not capture that wrap.
- ProcessThreads.ProcessThread.Run: requires `Fresh()`, a thread in a process that has not run one before. `operationCount`, `totalOperations` and `currentProgress` are globals the program never resets (ProcessThread.cpp:64-67), so a second run in one process would start from the first run's values.
- The existence checks after `canonical` in the album update (ProcessThread.cpp:664) and after counting in the playlist update (ProcessThread.cpp:581) are modelled as written. The first can never skip, since `canonical` already threw for a missing folder.
- ProcessThread.h is a stale declaration that does not match the constructor in ProcessThread.cpp. It contributes only `stop()`. The dialog and application files are not part of this model.

## Findings

| source | as written | input that shows it | evidently intended | confidence | as-written member | corrected member |
|---|---|---|---|---|---|---|
| ProcessThread.cpp:557-559 | the SET clause is `ARTISTS_PART + " " + IMAGES_PART`, and ARTISTS_PART ends in a comma (the album update at lines 641-644 builds it the same way). When the prepare fails the statement is null, and the loop still calls SQLite on it for every album that exists on disk (lines 672-707); the model writes nothing and goes on, while `sqlite3_clear_bindings` (line 704) reads through the null pointer in a SQLite built without API armour | artists processed and images not: `SET Artists = :artist, AlbumArtists=:artist, Album = :album,  WHERE ...` does not compile, so no artist or album is ever written | the assignments that are present, joined by commas | not executed | Catalog.SetClauseAccepted | Catalog.SetClauseJoinedAccepted |
| ProcessThread.cpp:872-877 | albums add `albumsCount` to the total once, but each album is counted when generated (line 353) and again when applied (line 662) | images and albums processed, track lists and tracks not, and a catalog holding one album missing metadata whose folder can be listed: no playlist is selected, the clause compiles, the total is 1, and the progress computed after the album update is 200 | albums counted twice, like the other kinds | not executed | Pipeline.AlbumCountedOnce | Pipeline.PlanWithinCount |

The model follows the code in both places. With artists processed and images not, the metadata updates write nothing (`Operations.ClauseCompiles`, `Operations.ClauseCompilesAsWritten`); a SQLite build without API armour would crash in the album loop instead (see Left out). `countOperations` counts each album once (`Pipeline.OperationsToCount`, used by `ProcessThreads.ProcessThread.CountOperations`), so a run over albums can emit values up to 200 before its final 100 (`ProcessThreads.ProcessThread.Run`, `Pipeline.AlbumCountedOnce`). The corrected forms are stated beside them. The comma-joined clause is `Catalog.SetClauseJoinedAccepted`. The count with albums counted twice is `Pipeline.IntendedOperations`: it bounds every generated plan (`Pipeline.PlanWithinCount`), the thread keeps it as the ghost `budget`, and with it every value would stay within 0..100 (`Pipeline.CountCeiling`).
