# Catalog store, image migration and shared-files gallery: a Dafny model

This project models the parts of a small self-hosted furniture catalog that
change files on disk or decide what a visitor sees. It proves what those parts
guarantee and where they fall short.

- **update-db.php** takes a POST whose body is the whole new product list. It
  makes sure `database-backup/` exists and copies the current `db.json` to
  `database-backup/db-<Y-m-d-H-i-s>.json`. It then reads the body, checks that
  it is JSON, and writes the pretty-printed re-encoding over `db.json`. Every
  step can stop the request with an error response. (`update_db.dfy`, with the
  timestamp format in `date_format.dfy`.)
- **save-data.php** writes any body PHP considers true over `db.json` as it is.
  It does no method check, no validation and takes no backup. (`save_data.dfy`)
- **convert_to_webp.py** is a one-off migration. It converts every scanned image
  with a supported extension to a `.webp` next to it, leaving a `.backup` copy
  of each converted original. It then rewrites the `image` paths in `db.json` to end in
  `.webp`. (`webp_migration.dfy`)
- **share.php**, on the server, makes the thumbnails directory and filters the
  listing of `shares/` down to images. It writes a 300-pixel-wide thumbnail for
  each image that has none. In the browser, a preview modal keeps a cursor
  (`currentIndex`, `isLoading`) that buttons, keys and swipes move.
  (`share_listing.dfy`, `gallery_cursor.dfy`, `gallery.dfy`)

`file_store.dfy` is the filesystem all of these act on: a map from path to
bytes plus a set of directories. Each system call the sources use (mkdir, copy,
whole-file write, unlink, replace) is written once as a pure function on that
value. The `Disk` class offers the same call as a method proved equal to it. A
call can be made to fail by a parameter. A failing write or copy may leave a
truncated file at its destination (`WriteFault.FailsLeaving`), because PHP's
`copy` and Python's `shutil.copy2` open the destination for writing first.

Each handler that works step by step is a method over `Disk`. Its postcondition
says the disk ends in the state computed by a pure "outcome" function of the
old state, and the properties are lemmas about that function. The JSON
library, Pillow, GD, the clock and the listing `scandir` returns are
parameters.

`update-db.php` copies the store to the backup before it reads and decodes
the body, so an unreadable or non-JSON body is answered 400 after the backup
has been written (`InvalidBodyStillLeavesBackup`). A backup copy that fails
part-way leaves a truncated backup, which replaces any backup taken earlier
in the same second; db.json itself is never touched before the write
(`CopyFailureKeepsFiles`).

Other behaviours of the code are made explicit as lemmas:
- Two successful updates stamped with the same local date and time to the
  second share one backup name, and after the second that backup holds the
  first update's new store rather than the store from before it
  (`SameSecondUpdatesLoseOriginal`).
- `save-data.php` can lose the store when a write fails after truncating the
  file (`FailedWriteMayLoseStore`).
- The migration rewrites database paths whether or not the conversion
  succeeded (`ConvertedFilesIgnored`).
- A file named only `.jpg` is rewritten in the database but never converted
  (`HiddenNameRewrittenButNotConverted`).

## Model

| member | source | states |
|---|---|---|
| UpdateDb.HandleUpdateDb | update-db.php:10-69 | the handler run over the disk ends in exactly the world and response of `UpdateDbOutcome`, the account of the script's steps in order |
| UpdateDb.UpdateDbOutcome | update-db.php:10-69 | the whole request as a function: method check, then the backup stage, then the store stage (properties in the lemmas below) |
| UpdateDb.BackupStage | update-db.php:19-37 | make the backup directory when missing, then copy an existing db.json to the backup name (properties in `BackupStageFacts`) |
| UpdateDb.StoreStage | update-db.php:42-69 | read the body, decode it, write the pretty re-encoding over db.json (properties in `StoreStageFacts`) |
| UpdateDb.BackupFile | update-db.php:28 | the backup name for a time (properties in `BackupFileNamesTime`) |
| UpdateDb.BackupStageFacts | update-db.php:19-37 | the request gets past the backup steps exactly when the backup directory exists or can be made and an existing db.json can be copied; it then leaves db.json copied to the backup name; when it stops, at most the backup directory was added, and no file has changed except the backup name, which holds the partial bytes of a copy that failed after opening it |
| UpdateDb.StoreStageFacts | update-db.php:42-69 | writing succeeds exactly for a readable, decodable body written without a fault, and db.json then holds the re-encoding; an unreadable or invalid body is answered 400 with nothing changed; a failure changes db.json at most by a partial write; no directory changes |
| UpdateDb.BackupFileNamesTime | update-db.php:28 | the backup name is `database-backup/db-`, the stamp and `.json`, and the stamp reads back as the time of the request |
| UpdateDb.BackupFilesCollideOnlyWithinASecond | update-db.php:28 | two requests get the same backup name if and only if they are stamped with the same local date and time to the second |
| UpdateDb.BackupNameIsNotStore | update-db.php:28 | a backup name is neither db.json nor the backup directory, and making the backup directory creates no parent |
| UpdateDb.NonPostChangesNothing | update-db.php:10-14 | any method other than POST is answered 405 and nothing changes |
| UpdateDb.BackupDirFailureChangesNothing | update-db.php:19-25 | a missing backup directory that cannot be made gives 500 and leaves the world as it was |
| UpdateDb.CopyFailureKeepsFiles | update-db.php:31-37 | when db.json exists and the copy fails the answer is the backup error and db.json keeps its bytes; the files are unchanged when the copy failed before opening the backup, and otherwise differ only in the backup name, which now holds the partial bytes (truncating a same-second earlier backup) |
| UpdateDb.InvalidBodyStillLeavesBackup | update-db.php:31-55 | an unreadable or non-JSON body gets 400 with db.json unchanged, but the backup copy has already been written |
| UpdateDb.SuccessStoresReencodedPayload | update-db.php:59-69 | a success came from a POST with a decodable body; db.json then holds the pretty re-encoding of the decoded body, and the message names the backup path |
| UpdateDb.MissingStoreNamesUnwrittenBackup | update-db.php:31-69 | without a db.json no backup file is created or changed, yet a success message still names the backup path |
| UpdateDb.WriteFailureKeepsBackup | update-db.php:62-66 | after a failed final write the backup holds the previous store |
| UpdateDb.PriorStoreRecoverable | update-db.php:19-69 | whatever fails, the store from before the request is still on disk, in db.json or in this request's backup |
| UpdateDb.StoreChangesOnlyForValidPayload | update-db.php:42-62 | db.json changes only after a POST whose body was read and decoded |
| UpdateDb.OtherFilesUntouched | update-db.php:19-66 | no file other than db.json and this request's backup is created, changed or removed |
| UpdateDb.OnlyBackupDirCreated | update-db.php:19-25 | the only directory a request can add is the backup directory |
| UpdateDb.SameSecondUpdatesLoseOriginal | update-db.php:28-37 | after two successful updates in the same second, the shared backup holds the first request's new store, not the store from before it |
| UpdateDb.SameBackupOverwritten | update-db.php:31-37 | a successful request copies the current db.json over whatever its backup name held |
| DateFormat.FormatYmdHis | update-db.php:28 | `date('Y-m-d-H-i-s')` as a function of the local date-time (properties in `ParseFormatRoundTrip`, `FormatInjective`, `StampLength`) |
| DateFormat.ParseYmdHis | update-db.php:28 | reads the fields back out of a stamp; the inverse partner of `FormatYmdHis` |
| DateFormat.ParseFormatRoundTrip | update-db.php:28 | `date('Y-m-d-H-i-s')` produces a well-formed stamp from which every field of the time reads back |
| DateFormat.FormatInjective | update-db.php:28 | two valid times give the same stamp if and only if they are equal |
| DateFormat.StampLength | update-db.php:28 | with a four-digit year the stamp is 19 characters long |
| SaveData.PhpTruthy | save-data.php:8 | PHP truthiness of the body read (properties in `FalsyBodies`) |
| SaveData.SaveDataOutcome | save-data.php:5-19 | the whole request as a function (properties in the lemmas below) |
| SaveData.HandleSaveData | save-data.php:5-19 | the handler run over the disk ends in the world and response of `SaveDataOutcome` |
| SaveData.FalsyBodies | save-data.php:8 | an unreadable body, the empty body and "0" count as no data; "00" and "0\n" do not |
| SaveData.NoDataExactlyForFalsyBody | save-data.php:8-19 | the 400 answer comes exactly for a body PHP considers false, and then nothing changes |
| SaveData.SavedVerbatim | save-data.php:10-11 | on success db.json holds the body byte for byte, every other file is as it was and no directory changes |
| SaveData.OnlyStoreChanges | save-data.php:10 | whatever the outcome, no file but db.json and no directory changes |
| SaveData.FailedWriteMayLoseStore | save-data.php:10-15 | a write that fails after truncating is answered 500 and leaves only the partial bytes in db.json |
| SaveData.MethodIgnored | save-data.php:1-20 | the request method plays no part in the outcome |
| SaveData.GetRefusedOnlyByUpdateDb | save-data.php:5-11 | a GET with a true body is refused by update-db.php without any change, while save-data.php writes it over db.json |
| FileStore.AfterMkdir | share.php:19 | recursive `mkdir`: fails on an injected fault, an existing path or an ancestor that is a regular file; otherwise adds the path and all its ancestors (properties in `MkdirRule`) |
| FileStore.UnderFile | share.php:19 | some proper ancestor of the path is a regular file, which makes a recursive `mkdir` fail |
| FileStore.MkdirRule | share.php:19 | a recursive mkdir succeeds exactly when it is not failed, the path is free and no ancestor is a file; it changes no file, and adds the path and its ancestors on success and nothing otherwise |
| FileStore.AfterCopy | update-db.php:32 | `copy`: the destination receives the source's bytes; a missing source, a directory destination or a failure before opening changes nothing, and a failure after opening leaves the partial bytes at the destination (a reference definition for `Disk.Copy`) |
| FileStore.CopyFrame | update-db.php:32 | a copy changes no directory and no entry but its destination, and succeeds, leaving the source's bytes there, exactly when the source is a file, the destination is not a directory and no fault occurs |
| FileStore.AfterPut | update-db.php:62 | `file_put_contents`: the path receives the data, or nothing happens, or the truncated bytes are left (a reference definition for `Disk.Put`) |
| FileStore.AfterUnlink | convert_to_webp.py:191 | `Path.unlink`: the file is removed unless the call fails (a reference definition for `Disk.Unlink`) |
| FileStore.AfterReplace | convert_to_webp.py:199 | `Path.replace`: the source's bytes move over the destination and the source disappears, or nothing changes (a reference definition for `Disk.Replace`) |
| FileStore.PutFrame | save-data.php:10 | a whole-file write changes no entry but the one it writes, and no directory |
| FileStore.Disk.Mkdir | update-db.php:20 | `mkdir(..., true)` on the disk acts as `AfterMkdir`: it fails on an injected fault, an existing path or an ancestor that is a regular file, otherwise adds the directory and its parents |
| FileStore.Disk.Copy | update-db.php:32 | `copy` on the disk acts as `AfterCopy`: the destination receives the source's bytes, or the partial bytes of a copy that fails after opening it |
| FileStore.Disk.Put | update-db.php:62 | `file_put_contents` on the disk acts as `AfterPut`, including a write that fails after truncating |
| FileStore.Disk.Unlink | convert_to_webp.py:191 | `Path.unlink` on the disk acts as `AfterUnlink` |
| FileStore.Disk.Replace | convert_to_webp.py:199 | `Path.replace` on the disk acts as `AfterReplace`: the source moves over the destination |
| WebpMigration.Name | convert_to_webp.py:52 | `PurePath.name` (properties in `NameShape`) |
| WebpMigration.PySuffix | convert_to_webp.py:52 | `PurePath.suffix` (properties in `SuffixShape`) |
| WebpMigration.OutputPath | convert_to_webp.py:166 | `with_suffix('.webp')` (properties in `ConvertibleRewritesToOutput`, `TouchedPathsDistinct`) |
| WebpMigration.BackupOf | convert_to_webp.py:92 | `with_suffix(suffix + '.backup')` (properties in `BackupAppends`) |
| WebpMigration.IsConvertible | convert_to_webp.py:52 | the scan's lower-cased suffix test |
| WebpMigration.ImageRewrites | convert_to_webp.py:112-113 | the lower-cased path ends with a supported extension |
| WebpMigration.RewritePath | convert_to_webp.py:114 | `rsplit('.', 1)[0] + '.webp'` (properties in `RewriteIdempotent`, `RewriteReplacesExtension`) |
| WebpMigration.UpdateDbJsonOutcome | convert_to_webp.py:100-127 | load, rewrite and dump of db.json as a function (properties in `UpdatedDbHoldsRewrite`, `UpdateDbJsonFrame`) |
| WebpMigration.ConvertOne | convert_to_webp.py:164-200 | one iteration of the conversion loop as a function (properties in the per-file lemmas below) |
| WebpMigration.ConvertAll | convert_to_webp.py:160-200 | the conversion loop as a function, stopping after a failed restore (properties in `CountersAddUp`, `OriginalsSurvive`) |
| WebpMigration.MigrateOutcome | convert_to_webp.py:142-209 | main as a function (properties in `MigrationKeepsOriginals`) |
| WebpMigration.NameShape | convert_to_webp.py:52 | `PurePath.name` ends its path and holds no separator |
| WebpMigration.SuffixShape | convert_to_webp.py:52 | `PurePath.suffix` ends the name and is empty or a dot followed by no dot or separator |
| WebpMigration.BackupAppends | convert_to_webp.py:92 | `with_suffix(suffix + '.backup')` is the whole path followed by `.backup` |
| WebpMigration.NotRewrittenEndings | convert_to_webp.py:112-113 | a path ending in `.webp`, `.svg`, `.backup` or `.json` is never rewritten |
| WebpMigration.RewriteIdempotent | convert_to_webp.py:114 | a rewritten path ends in `.webp`, so a second pass leaves it alone |
| WebpMigration.RewriteReplacesExtension | convert_to_webp.py:112-115 | for a path ending (in any case) with a supported extension, the rewrite keeps the text before that extension and appends `.webp` |
| WebpMigration.UpperCaseExtensionRewritten | convert_to_webp.py:113-114 | `a.JPG` is rewritten to `a.webp` |
| WebpMigration.ConvertibleRewritesToOutput | convert_to_webp.py:52 | every file the scan accepts is one the database rewrite touches, and it is rewritten to the very `.webp` path the loop writes |
| WebpMigration.HiddenNameRewrittenButNotConverted | convert_to_webp.py:52 | the converse fails: `Sofa/.jpg` is rewritten in the database but never scanned for conversion |
| WebpMigration.RewriteItem | convert_to_webp.py:109-117 | one entry: a non-string `image` abandons the update; otherwise the keys and every other field stay, the count is 1 exactly when the image path ends with a supported extension, and then the image is the rewritten path; a count of 0 means the entry is unchanged |
| WebpMigration.RewriteCatalog | convert_to_webp.py:108-117 | the loop succeeds exactly when no entry has a non-string image, keeps the length, rewrites each entry as `RewriteItem` does, and counts at most one per entry |
| WebpMigration.CountIsRewrittenEntries | convert_to_webp.py:106-116 | `updated_count` is the number of entries whose image path is rewritten |
| WebpMigration.CatalogUnchanged | convert_to_webp.py:108-117 | a list no entry of which is touched comes back unchanged with count 0 |
| WebpMigration.RewriteCatalogIdempotent | convert_to_webp.py:108-117 | running the loop on its own output changes nothing and counts 0 |
| WebpMigration.RewriteImagePaths | convert_to_webp.py:106-117 | the in-place loop over the list succeeds exactly when `RewriteCatalog` does, leaving its entries and count in the array |
| WebpMigration.MatchesSupportedFormat | convert_to_webp.py:112-117 | the search over the extension set finds a match exactly when the lower-cased path ends with a supported extension |
| WebpMigration.UpdateDbJson | convert_to_webp.py:100-127 | load, rewrite and dump over the disk end as `UpdateDbJsonOutcome` |
| WebpMigration.ConvertedFilesIgnored | convert_to_webp.py:100-127 | the outcome is the same whatever list of converted files is passed |
| WebpMigration.UpdatedDbHoldsRewrite | convert_to_webp.py:102-123 | a non-zero count means db.json now holds the dump of the rewritten list and the count is the number of rewritten entries |
| WebpMigration.UpdateDbJsonFrame | convert_to_webp.py:100-127 | no file other than db.json and no directory changes |
| WebpMigration.SecondRunRewritesNothing | convert_to_webp.py:108-121 | if the JSON library reads back what it dumped, a second update over the first one's output counts 0 |
| WebpMigration.ConvertFile | convert_to_webp.py:164-200 | handling one file over the disk ends as `ConvertOne` |
| WebpMigration.ConvertImages | convert_to_webp.py:160-200 | the loop over the disk leaves the disk and counters of `ConvertAll`, stopping at a failed restore |
| WebpMigration.ConvertAllStopsWhenAborted | convert_to_webp.py:197-199 | once a restore has failed, the remaining files change nothing |
| WebpMigration.CountersAddUp | convert_to_webp.py:160-200 | converted + skipped + errors is the number of files, or fewer when a failed restore stopped the run |
| WebpMigration.ExistingOutputSkips | convert_to_webp.py:168-172 | an existing `.webp` output means the file is skipped with nothing changed |
| WebpMigration.BackupFailureConvertsNothing | convert_to_webp.py:176-180 | a failed backup copy is an error and nothing is converted: the original keeps its bytes, and the world is unchanged except that a copy failing after opening the backup leaves its partial bytes at the `.backup` path |
| WebpMigration.ConvertedKeepsBackup | convert_to_webp.py:186-194 | a conversion leaves the `.webp` bytes at the output path and the original at the backup, and removes the original exactly when the removal does not fail |
| WebpMigration.FailedConversionRestores | convert_to_webp.py:195-200 | after a failed conversion the original is back in place and no backup is left |
| WebpMigration.TouchedPathsDistinct | convert_to_webp.py:166-197 | a convertible file, its output and its backup are three different paths |
| WebpMigration.ConvertOneFrame | convert_to_webp.py:164-200 | handling a file changes nothing outside its three paths and no directory |
| WebpMigration.OriginalSurvivesOne | convert_to_webp.py:176-200 | whatever fails, the original bytes of a file are still on disk at its path or its backup |
| WebpMigration.OriginalsSurvive | convert_to_webp.py:164-200 | after the whole loop, even a stopped one, every scanned original is on disk at its path or its backup |
| WebpMigration.Migrate | convert_to_webp.py:142-209 | main over the disk ends as `MigrateOutcome`: nothing without files or confirmation, no database update after a stopped loop, and an update only when db.json exists |
| WebpMigration.JsonFileIsNoImage | convert_to_webp.py:204 | db.json is never a scanned image or one of their backups |
| WebpMigration.MigrationKeepsOriginals | convert_to_webp.py:158-209 | the whole migration, database update included, never loses an original image |
| ShareListing.SetupOutcome | share.php:9-24 | the GD test and the creation of the thumbnails directory (properties in `SetupDecidesThumbnails`) |
| ShareListing.ThumbDirAncestry | share.php:18-19 | `shares` is the only ancestor of the thumbnails directory, so its mkdir fails on an ancestor exactly when `shares` is a regular file |
| ShareListing.Extension | share.php:34 | `pathinfo($file, PATHINFO_EXTENSION)` (properties in `ExtensionOfJoin`, `ExtensionWithoutDot`) |
| ShareListing.IsListed | share.php:30-36 | the filter's test for one name |
| ShareListing.ListImages | share.php:27-36 | scandir of `shares` when it is a directory, then the filter (properties in `ListImagesShowsOnlyImages`) |
| ShareListing.EncodingFor | share.php:54-84 | the encoder chosen for each image type (properties in `EncodingKeepsFormat`) |
| ShareListing.ThumbPath | share.php:42 | the thumbnail of a name is that name under the thumbnails directory |
| ShareListing.Plan | share.php:44-84 | what one iteration would write (properties in `PlanRule`) |
| ShareListing.ThumbFor | share.php:41-88 | one iteration of the thumbnail loop as a function (properties in `ThumbForFrame`) |
| ShareListing.ThumbAll | share.php:39-91 | the thumbnail loop as a function (properties in `ThumbnailsOnlyAdded`) |
| ShareListing.ShareOutcome | share.php:9-91 | the page's PHP prologue as a function (properties in the lemmas below) |
| ShareListing.SetupDecidesThumbnails | share.php:9-24 | thumbnails are on exactly when GD is loaded and the thumbnails directory exists, or is free, `shares` is not a regular file and mkdir does not fail; then there is no warning and `shares` is a directory; otherwise nothing changes and the warning names the cause |
| ShareListing.SetupCreatesOnlyThumbDir | share.php:17-24 | the set-up adds no directory but the thumbnails directory and its parents |
| ShareListing.ExtensionOfJoin | share.php:34 | the extension is exactly the text after the last dot |
| ShareListing.ExtensionWithoutDot | share.php:34 | a name without a dot has an empty extension |
| ShareListing.FilterImages | share.php:30-36 | a name is in the list exactly when the listing holds it and it is not `.` or `..`, not a directory and has an image extension |
| ShareListing.FilterAppend | share.php:30-36 | the filter keeps the scan order |
| ShareListing.FilterKeepsImageListing | share.php:30-36 | a listing of images only comes back whole and in order |
| ShareListing.UpperCaseImageListed | share.php:34-35 | `photo.JPG` has an image extension |
| ShareListing.InnerExtensionIgnored | share.php:34-35 | `archive.png.zip` does not: only the last extension counts |
| ShareListing.HiddenImageListed | share.php:34-35 | `.png` has an image extension |
| ShareListing.NameWithoutDotNotListed | share.php:34-35 | `README` does not |
| ShareListing.ListImagesShowsOnlyImages | share.php:27-36 | a name is listed exactly when `shares` is a directory, the listing holds the name and the filter keeps it |
| ShareListing.ThumbHeight | share.php:49 | the thumbnail height is never below 1 |
| ShareListing.ThumbHeightKeepsAspect | share.php:47-49 | the height is the source's height scaled to width 300 and rounded down, or 1 when that is 0 |
| ShareListing.NarrowSourceScaledUp | share.php:48-49 | a source narrower than 300 gets a thumbnail at least as high as itself |
| ShareListing.EncodingKeepsFormat | share.php:54-84 | JPEG, PNG and GIF are encoded in their own format, JPEG at quality 80, and any other type gets no encoder |
| ShareListing.PlanRule | share.php:44-84 | a thumbnail is planned exactly when none exists under that name and the source is readable, probed, of a known type and decoded; it is then 300 wide, at least 1 high, in the source's format, and GD's rendering at that size |
| ShareListing.MakeThumbnail | share.php:41-88 | one iteration over the disk acts as `ThumbFor` |
| ShareListing.GenerateThumbnails | share.php:39-91 | the loop over the disk acts as `ThumbAll` |
| ShareListing.ThumbForFrame | share.php:44-84 | one iteration changes no existing file and no directory, and adds at most its own thumbnail |
| ShareListing.ThumbnailsOnlyAdded | share.php:39-91 | the loop never overwrites a file, existing thumbnails included; every new file is the thumbnail of a listed name; directories do not change |
| ShareListing.ThumbnailHoldsRendering | share.php:72-84 | a thumbnail written without a fault holds GD's rendering of its source at width 300 |
| ShareListing.PrepareShare | share.php:9-91 | the page's PHP prologue over the disk ends as `ShareOutcome` |
| ShareListing.NoThumbnailsWhenDisabled | share.php:12-39 | without GD, or when the thumbnails directory cannot be made, the page writes nothing, warns, and still lists the images |
| ShareListing.PageNeverOverwrites | share.php:12-91 | loading the page never changes or removes a file, adds only thumbnails of listed images, and adds directories only on the way to the thumbnails directory |
| ShareListing.ThumbnailsBelongToListedImages | share.php:30-42 | every new file is the thumbnail of a name the listing holds and the filter keeps |
| GalleryCursor.OpenPreview | share.php:377-385 | `openPreview` (properties in `OpenPreviewRule`) |
| GalleryCursor.HideLoading | share.php:371-375 | `hideLoading`, run by the image's load and error callbacks |
| GalleryCursor.CloseModal | share.php:419-425 | `closeModal` (properties in `CloseResets`) |
| GalleryCursor.ShowPrev | share.php:427-431 | `showPrev` (properties in `PrevMovesByOne`) |
| GalleryCursor.ShowNext | share.php:433-437 | `showNext` (properties in `NextMovesByOne`) |
| GalleryCursor.IsSwipe | share.php:512 | the swipe test against the three thresholds (properties in `NonSwipeIgnored`) |
| GalleryCursor.OnKeyDown | share.php:457-479 | the `keydown` handler (properties in `KeysIgnoredWhenClosed`) |
| GalleryCursor.OnTouchStart | share.php:487-499 | the `touchstart` handler (properties in `TouchStartIgnoredWhileLoading`) |
| GalleryCursor.OnTouchEnd | share.php:501-519 | the `touchend` handler (properties in `SwipeDirection`) |
| GalleryCursor.InitialSatisfiesInvariant | share.php:341-342 | the cursor starts at -1, not loading |
| GalleryCursor.StepPreservesInvariant | share.php:377-519 | every handler keeps the cursor at -1 or on a named image, the modal shown exactly when it is on one, and loading only while shown |
| GalleryCursor.ReplayPreservesInvariant | share.php:341-519 | after any sequence of events the cursor is within [-1, len-1] |
| GalleryCursor.ReplayAppend | share.php:341-519 | handling one run of events and then another is the same as handling them as one run |
| GalleryCursor.OpenPreviewRule | share.php:377-385 | `openPreview` does nothing exactly when there is no name at the index or an image is loading; otherwise the cursor lands on the index and loading starts |
| GalleryCursor.NothingMovesWhileLoading | share.php:377-519 | while an image loads, only its load callback and closing change anything |
| GalleryCursor.NextMovesByOne | share.php:433-437 | next moves the cursor forward by one or not at all, exactly when a named next image exists and nothing loads |
| GalleryCursor.PrevMovesByOne | share.php:427-431 | prev moves the cursor back by one or not at all, never below the first image |
| GalleryCursor.PrevUndoesNext | share.php:427-437 | next, the image loading, then prev returns to the image the user came from |
| GalleryCursor.CloseResets | share.php:419-425 | closing always gives cursor -1, not loading, modal hidden |
| GalleryCursor.KeysIgnoredWhenClosed | share.php:457-479 | keys do nothing while the modal is hidden |
| GalleryCursor.SwipeDirection | share.php:512-518 | a swipe to the right acts as prev and one to the left as next |
| GalleryCursor.NonSwipeIgnored | share.php:512 | a touch moving less than 50 sideways, more than 100 vertically, or lasting over 500 ms does not navigate |
| GalleryCursor.TouchStartIgnoredWhileLoading | share.php:487-492 | the touch start is recorded only when nothing loads, and recording it moves nothing |
| GalleryView.Gallery.ShowLoading | share.php:364-368 | `showLoading` sets `isLoading` and changes no other field; it runs only inside `OpenPreview`, which restores the invariant |
| GalleryView.Gallery.constructor | share.php:341-342 | the script's variables start in the initial state |
| GalleryView.Gallery.OpenPreview | share.php:377-417 | updates the fields as `GalleryCursor.OpenPreview` and keeps the invariant |
| GalleryView.Gallery.HideLoading | share.php:371-375 | the load and error callbacks clear loading and keep the invariant |
| GalleryView.Gallery.CloseModal | share.php:419-425 | updates the fields as `GalleryCursor.CloseModal` and keeps the invariant |
| GalleryView.Gallery.ShowPrev | share.php:427-431 | updates the fields as `GalleryCursor.ShowPrev` and keeps the invariant |
| GalleryView.Gallery.ShowNext | share.php:433-437 | updates the fields as `GalleryCursor.ShowNext` and keeps the invariant |
| GalleryView.Gallery.OnKeyDown | share.php:457-479 | updates the fields as `GalleryCursor.OnKeyDown` and keeps the invariant |
| GalleryView.Gallery.OnTouchStart | share.php:487-499 | updates the fields as `GalleryCursor.OnTouchStart` and keeps the invariant |
| GalleryView.Gallery.OnTouchEnd | share.php:501-519 | updates the fields as `GalleryCursor.OnTouchEnd` and keeps the invariant |

## Left out

- Image codecs are opaque parameters that may succeed or fail. This covers GD (`getimagesize`, `imagecreatefrom*`, `imagecopyresampled`, `imagejpeg`/`png`/`gif`) and Pillow (open, EXIF orientation, flattening onto white, the 400x400 resize, the WebP encode at quality 85). They are foreign libraries whose pixels are not modelled.
- JSON parsing and serialisation are parameters. `json_decode`/`json_encode` are a codec; `json.load`/`json.dump` are a load/dump pair. A `json_encode` that returns false is not modelled.
- `db.json` whose top level is not a list is not modelled. Entries are objects whose `image` is a string or some other JSON value.
- The clock, the process environment and the real filesystem are inputs. File permissions appear only as per-call failure flags and, for `is_readable`, a per-file flag.
- UpdateDb.BackupFilesCollideOnlyWithinASecond: speaks of local date-times as `date()` formats them. Wall-clock effects are not modelled: two requests an hour apart across a daylight-saving fall-back, or after the clock is set back, also get the same name.
- Concurrent requests are left out: nothing locks `db.json` and the last writer wins, so the model is sequential.
- The migration's directory scan (`rglob` over fixed category folders) is left out: the scanned list is an input (`ScannedFiles`), and only its suffix test is modelled.
- The console dialogue of the migration is left out. `print` calls, the dependency check and the `input()` confirmation (a `confirmed` parameter) are I/O.
- `shutil.copy2` onto a path that is a directory is not modelled. Such a copy would create a file inside that directory; the model treats the copy as failing.
- `with_suffix` on a path whose name is empty is not modelled (Python raises ValueError). Scanned files always have a name.
- ShareListing.ListImages: a `scandir` that fails on an unreadable `shares` returns false, and `array_filter` then ends the page with a fatal error after the set-up. The model takes the listing as given and does not cover that stop.
- The order of `scandir`'s listing is an input. So is the order in which the migration script visits its set of extensions, which does not change the result.
- `pathinfo` is applied to whole listing names. `scandir` names hold no `/`.
- ShareListing.ThumbHeight: computes `max(1, h*300 div w)` in integers. PHP computes `h / (w / 300)` in floating point before `intval`, which can differ by one in the last place.
- ShareListing.ImageInfo: widths are positive. A zero width from `getimagesize` would make PHP throw on the division, and that crash is not modelled.
- ShareListing.PlanRule: `imagecreatetruecolor` failing for huge heights is not modelled.
- All of share.php's HTML, CSS and rendering is left out. This covers the list/grid views, the image counter, preloading, focus handling, the double-tap guard, orientation and context-menu handlers, and the JSON encoding of the list into the page.
- Touch coordinates are integers rather than floating-point page coordinates.
- `strtolower` and `str.lower` are modelled as ASCII lower-casing; non-ASCII case folding is left out.
