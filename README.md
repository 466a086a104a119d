# bijibiji in Dafny

bijibiji tags ordinary files without touching them. Next to each tracked
file `P` sits a JSON sidecar `P.biji.json` holding the file's record (path,
name, suffix, mimetype, size, modification time, creation and modification
stamps of the record, and the tags). An SQLite index (`bijis`, `tags`,
`tag_biji`) mirrors the sidecars. This project models:

- the record and its sidecar (`biji.dfy`, module `BijiRecord`): the path
  rule, the ten fields, loading with `from_file`, writing with `write_file`,
  the index writes, and the batch retagging the tag wizard runs;
- the index (`database.dfy`, module `Database`): the three tables as maps,
  the schema's constraints, every statement of `BijiDatabase` as a
  function on the tables, and the class itself over those tables;
- the reconciliation scanner (`scanner.dfy`, module `Scanner`) and the
  scanner window (`scan_window.dfy`, module `ScanWindow`);
- the tag wizard's pages: the file list (`add_file_page.dfy`), the tags
  page (`tags_page.dfy`), the preview page (`preview_page.dfy`) and the
  check-box list helpers they share (`helpers.dfy`);
- the tag manager's delete and rename (`tags_manager.dfy`).

Shared pieces:

- `basics.dfy` holds Python's `<` on `str`, SQLite's NOCASE folding,
  `str.strip()`, and the exceptions the code raises.
- `storage.dfy` holds the file system: the tracked files with what
  `lstat()` reports, and the sidecars as the dictionaries `json.loads`
  returns.

How the model is built:

- Python objects whose fields change become classes: `Biji`,
  `BijiDatabase`, `BijiScanner`, the wizard pages and the list widget.
- Their methods are proved equal to pure functions on values. A batch that
  a Python exception can cut short is a fold that stops at the first error
  and returns the state reached with the error (`Outcome`).
- Loops over a Python `set` take the set's iteration order as "some
  sequence listing each element once" (`Enumerates`). The contracts hold
  for every such order.
- The clock reading and `mimetypes.guess_type` are parameters (`Env`). So
  are the answers of the dialogs (`confirmed`, `ok`, `input`).

The specification and the code differ in one place, and the model follows
the code:

- `from_file` (`bijibiji/bijitags/biji.py:100-102`) copies every stored
  field over the freshly constructed record. That includes `filesize` and
  `updatedAt`, so a reloaded record reports the stored values and not the
  current `lstat()`.
- When the stored `filepath` is not the path (another string, or a value
  that is not a string at all) it is corrected and the sidecar rewritten
  (104-106).

A stored value of the wrong JSON type for its field is a place where the
model does not follow the code; "## Left out" says how.

## Model

| member | source | states |
|---|---|---|
| Basics.LessTotal | bijibiji/bijitags/biji.py:90 | Python's string `<`, used to compare bijiMTime stamps, is a strict total order (with LessIrreflexive, LessAsymmetric, LessTransitive) |
| Basics.LessEmpty | bijibiji/bijitags/biji.py:87-91 | no stamp is older than the empty string, and '' is below every non-empty stamp |
| Basics.LessAt | bijibiji/bijiscan/bijiscanner.py:28 | two strings that first differ at position i are ordered by their characters there |
| Basics.Elements | bijibiji/bijitags/biji.py:74 | a `for` over a set visits each element exactly once and nothing else |
| Basics.EnumeratesEmpty | bijibiji/bijitags/tags_page.py:75 | a loop over a set visits nothing exactly when the set is empty |
| Basics.NoCaseIdempotent | bijibiji/bijidb/bijidatabase.py:10 | the NOCASE key of a NOCASE key is itself |
| Basics.NoCaseLower | bijibiji/bijidb/bijidatabase.py:10 | the NOCASE key has no ASCII capital and keeps every other character |
| Basics.NoCaseAt | bijibiji/bijidb/bijidatabase.py:10 | the key folds each character independently |
| Basics.StripSpec | bijibiji/bijitags/helpers.py:31 | `strip()` cuts exactly the white space at both ends and keeps a contiguous piece that neither starts nor ends with white space |
| Basics.StripEmpty | bijibiji/bijitags/tags_page.py:189-191 | a string strips to '' exactly when it is all white space |
| Basics.StripIdempotent | bijibiji/bijitags/tags_page.py:116-117 | stripping twice is stripping once |
| Storage.FileSystem.Lstat | bijibiji/bijitags/biji.py:37 | `lstat()` gives the file's stat, or FileNotFoundError for a missing file |
| Storage.FileSystem.UnlinkSidecar | bijibiji/bijiscan/bijiscan_gui.py:165-167 | `unlink()` removes the sidecar and raises FileNotFoundError when it was already gone |
| Storage.FileSystem.WriteSidecar | bijibiji/bijitags/biji.py:133-134 | writing a sidecar replaces exactly that sidecar |
| Storage.FileSystem.ReadSidecar | bijibiji/bijitags/biji.py:95-97 | reading a sidecar gives its dictionary, or FileNotFoundError |
| Storage.FileSystem.Glob | bijibiji/bijiscan/bijiscanner.py:13 | the recursive glob yields every sidecar once |
| Database.Tables.InsertBiji | bijibiji/bijidb/bijidatabase.py:257-259 | a successful insert keeps the schema's constraints |
| Database.Tables.UpdateBiji | bijibiji/bijidb/bijidatabase.py:196-197 | a successful update keeps the schema's constraints |
| Database.Tables.UpdateMTime | bijibiji/bijidb/bijidatabase.py:205-209 | a successful bijiMTime update keeps the schema's constraints |
| Database.Tables.TouchTag | bijibiji/bijidb/bijidatabase.py:200-203 | touching a tag's usedAt keeps the schema's constraints |
| Database.Tables.Unlink | bijibiji/bijidb/bijidatabase.py:211-214 | unlinking keeps the schema's constraints |
| Database.Tables.AddLink | bijibiji/bijidb/bijidatabase.py:216-219 | a link the foreign keys accept keeps the schema's constraints |
| Database.Tables.InsertTags | bijibiji/bijidb/bijidatabase.py:221-226 | inserting the missing tags keeps the schema's constraints |
| Database.Tables.DeleteBiji | bijibiji/bijidb/bijidatabase.py:278-280 | deleting a row with its cascade keeps the schema's constraints |
| Database.Tables.DeleteTag | bijibiji/bijidb/bijidatabase.py:316-317 | deleting a tag with its cascade keeps the schema's constraints |
| Database.Tables.UpdateTag | bijibiji/bijidb/bijidatabase.py:320-322 | a rename the primary key accepts, with its cascade, keeps the schema's constraints |
| Database.CountInRemove | bijibiji/bijidb/bijidatabase.py:116-117 | COUNT(*) per tag does not depend on the order rows are counted |
| Database.CountInZero | bijibiji/bijidb/bijidatabase.py:134-137 | a tag counts 0 exactly when no link names it |
| Database.EmptyMeansAbsent | bijibiji/bijidb/bijidatabase.py:261-271 | get_mtime and get_tag_atime return '' exactly when there is no row, because CHECK forbids a stored '' (lines 18, 29) |
| Database.InsertTagsSpec | bijibiji/bijidb/bijidatabase.py:221-226 | insert_to_tags adds exactly the missing tags, stamped now, and keeps every existing usedAt |
| Database.RenamedKeepsParents | bijibiji/bijidb/bijidatabase.py:34-41 | after ON UPDATE CASCADE every link still names an existing tag and row |
| Database.RenamedSpec | bijibiji/bijidb/bijidatabase.py:96-98 | renaming moves every link of the old tag onto the new one and leaves other links alone |
| Database.DeleteBijiCascades | bijibiji/bijidb/bijidatabase.py:155-156 | delete_biji removes the row and every link naming its filepath under NOCASE, and nothing else |
| Database.DeleteTagCascades | bijibiji/bijidb/bijidatabase.py:88 | delete_tag removes the tag and every link naming it, and nothing else |
| Database.UpdateTagMovesLinks | bijibiji/bijidb/bijidatabase.py:96-98 | renaming onto an unused name succeeds; the new name has exactly the old one's files and usedAt, and the old name has none |
| Database.UpdateBijiKeepsKeyAndSize | bijibiji/bijidb/bijidatabase.py:76-86 | UPDATE_BIJI on an absent filepath changes nothing, and never changes a row's filepath or filesize or the other tables |
| Database.LinkTouchesTag | bijibiji/bijidb/bijidatabase.py:211-219 | a link is accepted exactly when the tag and row exist; linking adds one row and stamps the tag; unlinking removes every row of the pair |
| Database.InsertByCount | bijibiji/bijidb/bijidatabase.py:116-117 | placing a pair in a listing sorted by count keeps it sorted |
| Database.InsertedPairs | bijibiji/bijidb/bijidatabase.py:116-117 | inserting a new tag's pair adds exactly that tag and keeps the tags distinct |
| Database.AppendPairs | bijibiji/bijidb/bijidatabase.py:298-303 | two disjoint sorted listings whose counts line up concatenate into one distinct sorted listing |
| Database.FullListing | bijibiji/bijidb/bijidatabase.py:298-303 | the unused tags (count 0) followed by the grouped counts name every tag once, with its link count, in non-decreasing count |
| Database.AppendRows | bijibiji/bijidb/bijidatabase.py:298-303 | the fetched rows are appended in order |
| Database.SortByCount | bijibiji/bijidb/bijidatabase.py:116-117 | ORDER BY count lists every counted tag once with its count, sorted |
| Database.BijiDatabase.constructor | bijibiji/bijidb/bijidatabase.py:165-186 | the database file starts absent or holding valid tables, unconnected |
| Database.BijiDatabase.CreateDb | bijibiji/bijidb/bijidatabase.py:165-174 | create_db raises FileExistsError for an existing file and otherwise creates the empty schema |
| Database.BijiDatabase.ConnectDb | bijibiji/bijidb/bijidatabase.py:177-186 | connect_db raises FileNotFoundError for a missing file and otherwise connects |
| Database.BijiDatabase.CloseDb | bijibiji/bijidb/bijidatabase.py:192-194 | close_db disconnects and keeps the tables |
| Database.BijiDatabase.UpdateBiji | bijibiji/bijidb/bijidatabase.py:196-197 | update_biji applies UPDATE_BIJI or, when rejected, changes nothing |
| Database.BijiDatabase.UpdateTagTime | bijibiji/bijidb/bijidatabase.py:200-203 | update_tag_time stamps the tag |
| Database.BijiDatabase.UpdateBijiMTime | bijibiji/bijidb/bijidatabase.py:205-209 | update_biji_mtime applies UPDATE_BIJI_MTIME or changes nothing |
| Database.BijiDatabase.UnlinkTag | bijibiji/bijidb/bijidatabase.py:211-214 | unlink_tag deletes the pair's rows and stamps the tag |
| Database.BijiDatabase.InsertToTagBiji | bijibiji/bijidb/bijidatabase.py:216-219 | insert_to_tag_biji links and stamps, or fails on the foreign keys and changes nothing |
| Database.BijiDatabase.InsertToTags | bijibiji/bijidb/bijidatabase.py:221-226 | one pass over the set inserts exactly the tags get_tag_atime reports absent |
| Database.BijiDatabase.GetTagATime | bijibiji/bijidb/bijidatabase.py:229-239 | the tag's usedAt, or '' exactly when it has no row |
| Database.BijiDatabase.GetTags | bijibiji/bijidb/bijidatabase.py:242-248 | exactly the tags linked to that exact filepath |
| Database.BijiDatabase.GetBijis | bijibiji/bijidb/bijidatabase.py:250-255 | exactly the filepaths linked to the tag |
| Database.BijiDatabase.InsertToBijis | bijibiji/bijidb/bijidatabase.py:257-259 | insert_to_bijis inserts the row or, on a duplicate key or empty bijiMTime, changes nothing |
| Database.BijiDatabase.GetMTime | bijibiji/bijidb/bijidatabase.py:261-271 | the row's bijiMTime, or '' exactly when no row matches under NOCASE |
| Database.BijiDatabase.GetAllFilepaths | bijibiji/bijidb/bijidatabase.py:274-276 | every stored filepath once, each its own row's |
| Database.BijiDatabase.DeleteBiji | bijibiji/bijidb/bijidatabase.py:278-280 | delete_biji applies DELETE_BIJI with its cascade |
| Database.BijiDatabase.GetTagsOrderByCount | bijibiji/bijidb/bijidatabase.py:298-303 | every tag once with its number of links, in non-decreasing count |
| Database.BijiDatabase.GetTagsNotUsed | bijibiji/bijidb/bijidatabase.py:309-313 | exactly the tags no link names, each once, with count 0 |
| Database.BijiDatabase.CountLinks | bijibiji/bijidb/bijidatabase.py:116-117 | GROUP BY tag: each linked tag with COUNT(*) |
| Database.BijiDatabase.GroupByTag | bijibiji/bijidb/bijidatabase.py:116-117 | every linked tag once with its count, sorted by count |
| Database.BijiDatabase.DeleteTag | bijibiji/bijidb/bijidatabase.py:316-317 | delete_tag applies DELETE_TAG with its cascade |
| Database.BijiDatabase.UpdateTag | bijibiji/bijidb/bijidatabase.py:320-322 | update_tag renames with its cascade or, on a clash, changes nothing |
| BijiRecord.SidecarPath | bijibiji/bijitags/biji.py:61-62 | the sidecar's path is the file's path followed by `.biji.json` |
| BijiRecord.SidecarPathRoundTrip | bijibiji/bijiscan/bijiscanner.py:11-15 | cutting `.biji.json` off a sidecar path and adding it back are inverses |
| BijiRecord.SidecarPathInjective | bijibiji/bijitags/biji.py:61-62 | two files never share a sidecar |
| BijiRecord.FileName | bijibiji/bijitags/biji.py:41 | `Path.name` is the last component: slash-free, the whole path once trailing slashes are dropped or the part right after its last slash, and empty only for a path of slashes or the empty path |
| BijiRecord.TrimSlashes | bijibiji/bijitags/biji.py:41 | `Path` ignores trailing slashes: what is left is a prefix of the path that does not end in a slash, and only slashes were dropped |
| BijiRecord.Suffix | bijibiji/bijitags/biji.py:42 | `Path.suffix` is empty or a final `.xxx` of the name with no other dot |
| BijiRecord.LastDot | bijibiji/bijitags/biji.py:42 | the last dot of a name, or -1 |
| BijiRecord.Index | bijibiji/bijitags/biji.py:24-33 | every field has its place in `_fields` |
| BijiRecord.NameInjective | bijibiji/bijitags/biji.py:24-33 | no two fields share a JSON key |
| BijiRecord.DictLookup | bijibiji/bijitags/biji.py:124-127 | `_asdict` holds each field under its key |
| BijiRecord.AsDictKeys | bijibiji/bijitags/biji.py:124-127 | `_asdict` has exactly the ten keys |
| BijiRecord.SetFieldLocal | bijibiji/bijitags/biji.py:100-102 | copying one stored field changes that field only |
| BijiRecord.OverlayFromField | bijibiji/bijitags/biji.py:100-102 | the overlay loop sets each later field from the dictionary and keeps the earlier ones |
| BijiRecord.OverlayAsDict | bijibiji/bijitags/biji.py:100-102 | loading what `write_file` wrote gives back the record, whatever record the load starts from |
| BijiRecord.OverlayTagsAndPath | bijibiji/bijitags/biji.py:100-102 | after the overlay the tags and filepath are the stored ones when present with their JSON type, else the fresh ones |
| BijiRecord.AsDictNotStale | bijibiji/bijitags/biji.py:124-128 | a sidecar write_file wrote names the record's own path, so it is never rewritten again |
| BijiRecord.AsJsonSorted | bijibiji/bijitags/biji.py:130-131 | `_asjson` writes every field once, under its key, with its value, in increasing key order (`sort_keys=True`) |
| BijiRecord.Fresh | bijibiji/bijitags/biji.py:35-50 | a new record takes its path, size and mtime from lstat, stamps both times now, has no backup and a lower-case suffix |
| BijiRecord.Touched | bijibiji/bijitags/biji.py:144-145 | stamping tags keeps the set of tags |
| BijiRecord.Linked | bijibiji/bijitags/biji.py:144-145 | linking keeps every row and every tag |
| BijiRecord.LinkedSpec | bijibiji/bijitags/biji.py:140-146 | linking a set of tags adds exactly those tags to the file, one row each, keeping the constraints |
| BijiRecord.UnlinkedSpec | bijibiji/bijitags/biji.py:162-164 | unlinking a set removes exactly those tags from the file |
| BijiRecord.TagsInsertedSpec | bijibiji/bijitags/biji.py:140-146 | insert_tags_to_db succeeds exactly when the file has a row or there is nothing to link, and then adds the record's tags |
| BijiRecord.TagsReplacedSpec | bijibiji/bijitags/biji.py:157-167 | update_tags_to_db leaves the file linked to exactly the record's tags, once each, and no other file's links changed |
| BijiRecord.NoRowNoLinks | bijibiji/bijidb/bijidatabase.py:38-40 | a filepath without a row has no links |
| BijiRecord.SyncedSpec | bijibiji/bijitags/biji.py:87-91 | the index step fails only for an empty bijiMTime on insert; afterwards the row is no older than the record, and a write puts the record's stamp and tags; an up-to-date row is left alone |
| BijiRecord.LoadSpec | bijibiji/bijitags/biji.py:94-107 | from_file succeeds exactly when sidecar and file exist; the record has the given path and the stored tags; the sidecar is rewritten exactly when its stored filepath, of whatever type, is not the path |
| BijiRecord.StoredTagsAsDict | bijibiji/bijitags/biji.py:124-134 | the tags written are the record's |
| BijiRecord.LoadedSpec | bijibiji/bijitags/biji.py:75-80 | the loop's record fails only for a missing file, has the file's path and recorded tags, and touches only its own sidecar |
| BijiRecord.LoadedFromSidecar | bijibiji/bijitags/biji.py:94-107 | loading from a sidecar keeps its tags and corrects only a stale filepath |
| BijiRecord.NewTagsIdempotent | bijibiji/bijitags/bijitags_manager.py:99-100 | `(tags - deleted) \| added` applied twice is applied once, holds every added tag and no deleted tag that was not added |
| BijiRecord.RetaggedSpec | bijibiji/bijitags/biji.py:82-85 | record and sidecar end with the new tags; nothing is written when the set is unchanged; otherwise bijiMTime is now |
| BijiRecord.RetagOneSidecars | bijibiji/bijitags/biji.py:74-91 | one pass raises FileNotFoundError and changes nothing for a missing file; otherwise the file's recorded tags become the new set, and no other sidecar changes |
| BijiRecord.RetagOneWritesOnlyOnChange | bijibiji/bijitags/biji.py:83-85 | a pass that changes no tag and finds a correct filepath writes no sidecar |
| BijiRecord.Reload | bijibiji/bijitags/biji.py:94-107 | loading after a pass gives back the record the pass wrote |
| BijiRecord.SyncedIdempotent | bijibiji/bijitags/biji.py:87-91 | after a successful index step a second one does nothing |
| BijiRecord.RetagOneIdempotent | bijibiji/bijitags/biji.py:74-91 | a second identical pass over a file does nothing |
| BijiRecord.RetagAllTags | bijibiji/bijitags/biji.py:65-91 | after a batch without exception every file holds all added tags and no removed tag that was not also added |
| BijiRecord.RetagAllSidecars | bijibiji/bijitags/biji.py:65-91 | after a batch without exception each file records exactly (old - deleted) \| added |
| BijiRecord.RetagAllFrame | bijibiji/bijitags/biji.py:65-91 | a file outside the batch keeps its tags |
| BijiRecord.RetagOneFrame | bijibiji/bijitags/biji.py:74-91 | a pass over one file leaves every other file's tags alone |
| BijiRecord.Biji.Init | bijibiji/bijitags/biji.py:35-51 | the fields as `__init__` assigns them |
| BijiRecord.Biji.New | bijibiji/bijitags/biji.py:35-59 | `Biji(filepath)` raises FileNotFoundError for a missing file; otherwise it builds the fresh record and connects, creating the database first when missing |
| BijiRecord.Biji.SetTags | bijibiji/bijitags/biji.py:113-118 | the setter replaces the tags and stamps bijiMTime |
| BijiRecord.Biji.Assign | bijibiji/bijitags/biji.py:102 | one stored field copied onto the object |
| BijiRecord.Biji.FromFile | bijibiji/bijitags/biji.py:94-107 | from_file as the function Load |
| BijiRecord.Biji.OverlayWith | bijibiji/bijitags/biji.py:100-102 | the overlay loop |
| BijiRecord.Biji.WriteFile | bijibiji/bijitags/biji.py:133-134 | the sidecar holds `_asdict()` |
| BijiRecord.Biji.GetMTimeFromDb | bijibiji/bijitags/biji.py:173-178 | the row's bijiMTime or '' |
| BijiRecord.Biji.InsertBijiToDb | bijibiji/bijitags/biji.py:136-138 | insert_to_bijis of `_asdict()`, with its error |
| BijiRecord.Biji.InsertTagsToDb | bijibiji/bijitags/biji.py:140-146 | insert_to_tags then a link per tag, stopping at the first rejected link |
| BijiRecord.Biji.LinkTags | bijibiji/bijitags/biji.py:144-145 | every tag linked, or IntegrityError with nothing linked when the file has no row |
| BijiRecord.Biji.InsertBijiAndTagsToDb | bijibiji/bijitags/biji.py:148-150 | the row, then the tags |
| BijiRecord.Biji.UpdateBijiToDb | bijibiji/bijitags/biji.py:152-155 | update_biji of `_asdict()` |
| BijiRecord.Biji.UpdateTagsToDb | bijibiji/bijitags/biji.py:157-167 | unlink every tag get_tags reports, then insert the record's |
| BijiRecord.Biji.UpdateBijiAndTagsToDb | bijibiji/bijitags/biji.py:169-171 | the row, then the tags |
| BijiRecord.Biji.Open | bijibiji/bijitags/biji.py:75-80 | from_file when the sidecar exists, `Biji(file)` otherwise |
| BijiRecord.Biji.ChangeTags | bijibiji/bijitags/biji.py:82-85 | the new set, set and written only when it differs |
| BijiRecord.Biji.SyncToDb | bijibiji/bijitags/biji.py:87-91 | insert without a row, update when the record is newer, else nothing |
| BijiRecord.Biji.RetagFile | bijibiji/bijitags/biji.py:74-91 | one pass of the loop, as RetagOne |
| BijiRecord.Biji.UpdateTagsForFiles | bijibiji/bijitags/biji.py:65-91 | the whole loop, as RetagAll over the set's iteration order |
| Scanner.LoadOutside | bijibiji/bijitags/biji.py:94-107 | loading a file reads only its own sidecar |
| Scanner.SurveyStepSpec | bijibiji/bijiscan/bijiscanner.py:14-29 | one sidecar of the walk lands in exactly the lists its file's state calls for |
| Scanner.LoadKeepsSidecars | bijibiji/bijiscan/bijiscanner.py:16-17 | from_file of an existing file keeps the set of sidecars and every recorded tag set |
| Scanner.SurveyFromSpec | bijibiji/bijiscan/bijiscanner.py:13-29 | the rest of the walk raises nothing and files each visited path correctly |
| Scanner.SurveySpec | bijibiji/bijiscan/bijiscanner.py:8-32 | the full walk raises nothing; "not exists" is exactly sidecars without file, "not in database" exactly files without row, "need update" exactly rows strictly older than the sidecar; sidecars keep their tags |
| Scanner.BucketsDisjoint | bijibiji/bijiscan/bijiscan_gui.py:126-150 | no path is in two of the four lists the window shows |
| Scanner.Survey | bijibiji/bijiscan/bijiscanner.py:13-29 | the loop computes the walk for some glob order |
| Scanner.SurveyOne | bijibiji/bijiscan/bijiscanner.py:15-29 | one loop body as SurveyStep |
| Scanner.ScanAll | bijibiji/bijiscan/bijiscanner.py:8-32 | scan_all returns exactly the files whose sidecar and file both exist, changing no recorded tags and no index |
| Scanner.UpdateStepSpec | bijibiji/bijiscan/bijiscanner.py:39-55 | a sidecar without file is skipped; an unindexed or outdated file gets the record's bijiMTime and tags; an up-to-date one is left alone |
| Scanner.LoadAgain | bijibiji/bijitags/biji.py:94-107 | a second from_file gives the same record and rewrites nothing |
| Scanner.UpdateStepIdempotent | bijibiji/bijiscan/bijiscanner.py:39-55 | a second pass over a sidecar right after a successful one changes nothing |
| Scanner.ScanAllAndUpdateDb | bijibiji/bijiscan/bijiscanner.py:35-55 | the loop computes UpdateFrom for some glob order |
| Scanner.UpdateOne | bijibiji/bijiscan/bijiscanner.py:40-55 | one loop body as UpdateStep: a sidecar without its file is skipped, otherwise the record is loaded and inserted or updated when outdated |
| Scanner.WithoutRowsSpec | bijibiji/bijidb/bijidatabase.py:155-156 | deleting rows keeps the constraints, removes exactly those rows and their links, and leaves the rest |
| Scanner.OrphansRemoved | bijibiji/bijiscan/bijiscanner.py:70-75 | afterwards every row has a sidecar, and a row with one keeps its columns and tags |
| Scanner.NoJsonOrphans | bijibiji/bijiscan/bijiscanner.py:58-75 | the rows reported are exactly the rows deleted |
| Scanner.BijiJsonNotExists | bijibiji/bijiscan/bijiscanner.py:58-67 | exactly the stored filepaths whose sidecar is missing |
| Scanner.OrphansAmongAll | bijibiji/bijiscan/bijiscanner.py:71-74 | once every row was walked, the orphans met are all the orphans |
| Scanner.DeleteBijiJsonNotExists | bijibiji/bijiscan/bijiscanner.py:70-75 | the index loses exactly the rows without a sidecar, with their links |
| Scanner.DeleteOrphansOf | bijibiji/bijiscan/bijiscanner.py:71-75 | the loop over the fetched rows deletes exactly the orphans among them |
| Scanner.DeleteIfOrphan | bijibiji/bijiscan/bijiscanner.py:72-75 | one loop body deletes the row exactly when it is orphaned |
| Scanner.AllBijiInDb | bijibiji/bijiscan/bijiscanner.py:78-82 | exactly the stored filepaths |
| ScanWindow.SidecarsRemovedSpec | bijibiji/bijiscan/bijiscan_gui.py:165-167 | the loop only deletes listed sidecars; when it gets through all are gone; it gets through on distinct files that each still have a sidecar |
| ScanWindow.InsertedSpec | bijibiji/bijitags/biji.py:148-150 | insert_biji_and_tags_to_db never touches an existing row; it fails exactly for an existing row or empty bijiMTime; on success row and tags are the record's |
| ScanWindow.UpdatedSpec | bijibiji/bijitags/biji.py:169-171 | update_biji_and_tags_to_db adds and removes no row and keeps filepath and filesize; on an indexed file it leaves the record's stamp and tags |
| ScanWindow.AddedSpec | bijibiji/bijiscan/bijiscan_gui.py:171-178 | add_to_database keeps every row, adds only listed ones, and on success every listed file has a row |
| ScanWindow.RefreshedSpec | bijibiji/bijiscan/bijiscan_gui.py:180-187 | update_database adds and removes no row, keeps filepath and filesize, and leaves unlisted rows alone |
| ScanWindow.RecordsDeletedAreOrphans | bijibiji/bijiscan/bijiscan_gui.py:189-195 | deleting the listed rows deletes exactly the orphan rows |
| ScanWindow.NothingDeleted | bijibiji/bijiscan/bijiscan_gui.py:190-191 | deleting no path changes nothing |
| ScanWindow.SameSidecarNames | bijibiji/bijiscan/bijiscanner.py:58-67 | which rows lack a sidecar depends only on which sidecars exist |
| ScanWindow.BijiScanner.constructor | bijibiji/bijiscan/bijiscan_gui.py:13-46 | opening the window connects and fills the four lists from the current state |
| ScanWindow.BijiScanner.ScanAll | bijibiji/bijiscan/bijiscan_gui.py:126-144 | the three lists gain exactly the missing, unindexed and outdated files |
| ScanWindow.BijiScanner.GetBijiJsonNotExists | bijibiji/bijiscan/bijiscan_gui.py:146-150 | the list gains exactly the rows without a sidecar |
| ScanWindow.BijiScanner.DeleteBijiJsonFiles | bijibiji/bijiscan/bijiscan_gui.py:155-169 | nothing for an empty list or a No; else the listed sidecars are unlinked, and the box is disabled exactly when all went |
| ScanWindow.BijiScanner.AddToDatabase | bijibiji/bijiscan/bijiscan_gui.py:171-178 | nothing for an empty list; else the listed files are inserted, and the box is disabled exactly when all went in |
| ScanWindow.BijiScanner.UpdateDatabase | bijibiji/bijiscan/bijiscan_gui.py:180-187 | nothing for an empty list; else the listed files are updated, and the box is disabled exactly when all were written |
| ScanWindow.BijiScanner.DeleteRecords | bijibiji/bijiscan/bijiscan_gui.py:189-195 | nothing for an empty list; else exactly the listed rows go, and the box is disabled |
| ScanWindow.Open | bijibiji/bijiscan/bijiscan_gui.py:16-21 | connect, creating the database file on FileNotFoundError |
| ScanWindow.DeleteRecord | bijibiji/bijiscan/bijiscan_gui.py:192-193 | one loop body deletes one more listed row |
| ScanWindow.ReindexOne | bijibiji/bijiscan/bijiscan_gui.py:174-176 | one loop body: from_file, then insert or update |
| Helpers.TextsOf | bijibiji/bijitags/add_file_page.py:95-99 | the texts of the rows in row order |
| Helpers.DistinctConcat | bijibiji/bijitags/tags_page.py:183-185 | lists without repeats and without a common element join without repeats |
| Helpers.ListWidget.InsertItem | bijibiji/bijitags/tags_page.py:185 | `insertItem` puts a new row at the given position |
| Helpers.ListWidget.TakeItem | bijibiji/bijitags/helpers.py:33 | `takeItem` removes exactly that row |
| Helpers.ListWidget.SetCheckState | bijibiji/bijitags/helpers.py:23 | one row's state changes |
| Helpers.ListWidget.Contains | bijibiji/bijitags/add_file_page.py:80-82 | `findItems` with exact matching finds a row exactly when its text is equal |
| Helpers.Rows | bijibiji/bijiscan/bijiscan_gui.py:118-123 | new rows carry the texts in order, unchecked |
| Helpers.AppendRow | bijibiji/bijitags/add_file_page.py:83-88 | a new text at the end keeps the list without repeats |
| Helpers.RowsOfSet | bijibiji/bijitags/preview_page.py:59-70 | rows made from a set list it once each |
| Helpers.AppendAll | bijibiji/bijitags/tags_page.py:62-65 | one new row per element of the set |
| Helpers.AppendSeq | bijibiji/bijitags/tags_page.py:99-101 | one new row per text, in order |
| Helpers.InsertAll | bijibiji/bijitags/tags_page.py:95-97 | the elements inserted on top |
| Helpers.Toggled | bijibiji/bijitags/helpers.py:15-23 | check_all keeps the number of rows |
| Helpers.FilterAppend | bijibiji/bijitags/helpers.py:38-44 | filtering a split list filters each part, so row order is kept |
| Helpers.FilterSplit | bijibiji/bijitags/helpers.py:26-44 | the Checked rows and the others partition the list |
| Helpers.StrippedTextsStep | bijibiji/bijitags/helpers.py:30-31 | one more row joins the deleted set exactly when Checked |
| Helpers.RowStep | bijibiji/bijitags/helpers.py:30-33 | removing the next Checked row by position matches removing it by identity |
| Helpers.ToggledSpec | bijibiji/bijitags/helpers.py:15-23 | check_all gives every row one state: Unchecked when all were checked, else Checked; a second call flips it on a non-empty list |
| Helpers.IsAllChecked | bijibiji/bijitags/helpers.py:7-12 | true exactly when no row is Unchecked |
| Helpers.CheckAll | bijibiji/bijitags/helpers.py:15-23 | the rows become Toggled |
| Helpers.GetCheckedItems | bijibiji/bijitags/helpers.py:38-44 | the Checked rows in row order |
| Helpers.DeleteFromList | bijibiji/bijitags/helpers.py:26-35 | the Checked rows go, the others stay in order, and the result is their stripped texts |
| AddFile.AddFilePage.constructor | bijibiji/bijitags/add_file_page.py:14-20 | an empty page |
| AddFile.AddFilePage.GetFileList | bijibiji/bijitags/add_file_page.py:95-99 | the texts of the rows in order |
| AddFile.AddFilePage.AddToFilelist | bijibiji/bijitags/add_file_page.py:75-93 | nothing for None; else each new non-sidecar path gets one unchecked row at the end, old rows stay, no repeats appear, and `files` becomes the set of the rows' texts when the list is not empty |
| AddFile.AddFilePage.AppendNew | bijibiji/bijitags/add_file_page.py:83-88 | one new row for an unlisted path |
| AddFile.AddFilePage.DeleteFromList | bijibiji/bijitags/add_file_page.py:101-104 | the Checked rows go and `files` becomes a list (not a set) of the texts of the rest, in row order |
| AddFile.KeptTexts | bijibiji/bijitags/add_file_page.py:101-104 | the paths left after delete_from_list are exactly the texts of the rows that were not Checked |
| TagsManager.Replacement | bijibiji/bijitags/bijitags_manager.py:219-224 | an empty `added` means delete (no tag), otherwise exactly the new name |
| TagsManager.RowsOnlyMTimesTrans | bijibiji/bijitags/bijitags_manager.py:207-210 | rows changed only in bijiMTime, to now, compose over several passes |
| TagsManager.OnlyMTimesTrans | bijibiji/bijitags/bijitags_manager.py:226-233 | "only bijiMTimes changed" composes over the loop |
| TagsManager.RelabelOneIndex | bijibiji/bijitags/bijitags_manager.py:227-233 | one file changes the index only in its bijiMTime, set to now |
| TagsManager.StampSpec | bijibiji/bijitags/bijitags_manager.py:233 | update_biji_mtime never fails and changes only that row's bijiMTime |
| TagsManager.RelabelOneSidecars | bijibiji/bijitags/bijitags_manager.py:227-233 | one file fails exactly when it or its sidecar is missing, then changes nothing; else only its tags change, to (tags - {deleted}) \| added |
| TagsManager.RelabelAllIndex | bijibiji/bijitags/bijitags_manager.py:227-233 | the loop keeps tags, links and rows, changing only bijiMTimes, and stamps every listed file with a row |
| TagsManager.RelabelAllSidecars | bijibiji/bijitags/bijitags_manager.py:227-233 | the loop gets through when all listed files exist, then relabels each listed file once and no other, and each listed file's sidecar stores bijiMTime now while an unlisted file's stored bijiMTime stays |
| TagsManager.RelabelOneStamps | bijibiji/bijitags/bijitags_manager.py:229-232 | a pass that gets through writes the file's sidecar with bijiMTime now (the tags setter's stamp), and no other sidecar path gains, loses or changes its dictionary, so every other file keeps its stored bijiMTime |
| TagsManager.StoredMTimeAsDict | bijibiji/bijitags/biji.py:124-128 | _asdict puts the record's bijiMTime under "bijiMTime" |
| TagsManager.RelabelLinked | bijibiji/bijitags/bijitags_manager.py:215-233 | over the files linked to the tag in any order, the sidecars are relabelled, each linked file carries bijiMTime now in its sidecar and in its row, and the index changes only in bijiMTimes |
| TagsManager.DeleteOrEditTag | bijibiji/bijitags/bijitags_manager.py:215-233 | ValueError for an empty tag; else the loop over get_bijis, relabelling those files; when it gets through each linked file's sidecar and row hold bijiMTime now |
| TagsManager.RelabelFile | bijibiji/bijitags/bijitags_manager.py:228-233 | one loop body as RelabelOne |
| TagsManager.DroppedStep | bijibiji/bijitags/bijitags_manager.py:207-210 | one more dropped tag drops it from the files it was linked to |
| TagsManager.FilesOfOutside | bijibiji/bijidb/bijidatabase.py:88 | links that agree except on one tag give the same files for the other tags |
| TagsManager.DroppedStampsStep | bijibiji/bijitags/bijitags_manager.py:207-210 | across one more dropped tag, a file is stamped now exactly when it was linked to an earlier checked tag or to this one, and a stamped row stays stamped |
| TagsManager.AllDroppedStep | bijibiji/bijitags/bijitags_manager.py:207-210 | dropping tags one by one composes: the tags, their usedAt, the links, the rows (changed only in bijiMTime, to now), the sidecar tags and the stamps of every file linked to a dropped tag |
| TagsManager.DroppedTag | bijibiji/bijitags/bijitags_manager.py:208-210 | relabelling with no replacement then delete_tag drops the tag from the index and from exactly its files' sidecars; other tags keep usedAt and files, rows change only in bijiMTime, and exactly the linked files are stamped now |
| TagsManager.DroppedIndex | bijibiji/bijidb/bijidatabase.py:88 | delete_tag removes the tag and its links and keeps every other tag's files |
| TagsManager.DroppedSidecars | bijibiji/bijitags/bijitags_manager.py:227-233 | relabelling with no replacement removes the tag from exactly the linked files |
| TagsManager.RenameAfterRelabel | bijibiji/bijitags/bijitags_manager.py:257-258 | relabelling changes only bijiMTimes, so update_tag afterwards renames the tag with exactly its files and its usedAt, every other tag keeping its usedAt and files, as in the index before |
| TagsManager.DropTag | bijibiji/bijitags/bijitags_manager.py:207-210 | one checked tag is dropped: gone with its links, other tags keep usedAt and files, rows change only in bijiMTime, and the linked files lose the tag and are stamped now |
| TagsManager.DeleteTags | bijibiji/bijitags/bijitags_manager.py:193-213 | nothing without checked tags or on a No; else on success the checked tags are gone with their links, the other tags keep their usedAt and files, rows change only in bijiMTime (to now), each sidecar lost exactly its linked checked tags, and exactly the files linked to a checked tag carry bijiMTime now in sidecar and row |
| TagsManager.DropAll | bijibiji/bijitags/bijitags_manager.py:207-210 | the loop drops every checked tag, with the same frame and stamps |
| TagsManager.DropNext | bijibiji/bijitags/bijitags_manager.py:207-210 | one more loop pass extends the dropped state by one tag |
| TagsManager.EditTag | bijibiji/bijitags/bijitags_manager.py:238-259 | a cancelled, blank or existing name changes nothing; else the linked files are relabelled and stamped now, and the tag renamed with its links and usedAt; rows change only in bijiMTime in every case |
| Tags.TagSets | bijibiji/bijitags/tags_page.py:67-73 | one tag set per file |
| Tags.CommonSpec | bijibiji/bijitags/tags_page.py:75-78 | the intersection holds exactly what every set holds, and nothing for no set |
| Tags.UnionSpec | bijibiji/bijitags/tags_page.py:75-80 | the union holds exactly what some set holds |
| Tags.TagSetsOfFiles | bijibiji/bijitags/tags_page.py:67-80 | in any order, the intersection is the tags all files share and the union those any carries |
| Tags.ShownDisjoint | bijibiji/bijitags/tags_page.py:75-97 | common, recommended and recently deleted tags are pairwise disjoint; recommended are those some but not all files carry |
| Tags.TagSetsOf | bijibiji/bijitags/tags_page.py:67-73 | the loop gives every file's recorded tags, or raises for a sidecar whose file is missing |
| Tags.TagSetOf | bijibiji/bijitags/tags_page.py:69-73 | one file's recorded tags |
| Tags.TagsPage.constructor | bijibiji/bijitags/tags_page.py:17-32 | an empty page with no common tags yet |
| Tags.TagsPage.InitializePage | bijibiji/bijitags/tags_page.py:50-103 | nothing when `files` equals the value seen last, as Python's == compares a set and a list (never equal, so the page is always rebuilt after a Del); else the page shows the files, shared tags, recently deleted above recommended tags, and all tags, unless from_file raises |
| Tags.TagsPage.ResetLists | bijibiji/bijitags/tags_page.py:56-60 | the lists are emptied |
| Tags.TagsPage.FillFileList | bijibiji/bijitags/tags_page.py:62-65 | one row per path in the loop's order: once each for a set, the list itself for a list |
| Tags.TagsPage.FillTagLists | bijibiji/bijitags/tags_page.py:82-97 | common tags, then recently deleted above recommended |
| Tags.TagsPage.UpdateNewCommonTags | bijibiji/bijitags/tags_page.py:114-117 | the stripped texts of the common list, none with surrounding white space |
| Tags.TagsPage.ValidatePage | bijibiji/bijitags/tags_page.py:105-107 | always accepted after collecting the common tags |
| Tags.TagsPage.CleanupPage | bijibiji/bijitags/tags_page.py:109-112 | the added common tags join the recently deleted; AttributeError before common_tags exists |
| Tags.TagsPage.DeleteTags | bijibiji/bijitags/tags_page.py:179-185 | the checked common tags go, join the recently deleted, and are listed on top of the recommendations |
| Tags.TagsPage.AddTags | bijibiji/bijitags/tags_page.py:187-201 | a new stripped non-blank unlisted tag is appended; otherwise nothing |
| Tags.TagsPage.CopyToCommonTags | bijibiji/bijitags/tags_page.py:203-209 | the text is listed afterwards, added once |
| Tags.TagsPage.MoveToCommonTags | bijibiji/bijitags/tags_page.py:211-213 | copied, and the row leaves the recommendations |
| Tags.PrependedSpec | bijibiji/bijitags/tags_page.py:183-185 | after prepending every element is listed and no repeat appears |
| Tags.PrependMissing | bijibiji/bijitags/tags_page.py:183-185 | every element not found goes on top |
| Preview.DeltaSpec | bijibiji/bijitags/preview_page.py:39-47 | removed and added tags are disjoint, applying them to the old common tags gives the new ones, and both are empty exactly when nothing changed |
| Preview.CommonReplaced | bijibiji/bijitags/preview_page.py:81-83 | a file carrying all old common tags keeps its other tags and gets the new common tags in their place |
| Preview.PreviewPage.constructor | bijibiji/bijitags/preview_page.py:11-21 | an empty page, no differences yet |
| Preview.PreviewPage.InitializePage | bijibiji/bijitags/preview_page.py:38-70 | the differences; only the label shows when nothing changed, else the three lists show files, removed and added tags once each |
| Preview.PreviewPage.IsComplete | bijibiji/bijitags/preview_page.py:72-73 | Apply is offered exactly while the label is hidden |
| Preview.PreviewPage.ValidatePage | bijibiji/bijitags/preview_page.py:75-84 | No changes nothing; Yes retags every file, and on success each records (old - removed) \| added while others are untouched; AttributeError before initializePage |
| Preview.FillList | bijibiji/bijitags/preview_page.py:64-70 | a list filled with a set once each |

## Left out

- The SQLite engine itself, transactions and `commit()`: each statement is a function on the tables, applied at once.
- `get_tags_order_by_tag`, `get_tags_order_by_time` and `get_all_tags_desc` (bijidatabase.py:283-285): the listings the tags page shows are a parameter `allTagsDesc` of `Tags.TagsPage.InitializePage`, and the manager's other listings are not modelled.
- JSON text: parsing and `json.dumps` produce and consume dictionaries; the characters written are not modelled. `BijiRecord.AsJson` gives the members and their order only.
- The tag array's order in a sidecar: tags are a set, as every use of them in the code is.
- Unicode case folding: NOCASE folds ASCII letters only, as SQLite does; `str.lower()` of the suffix is modelled for ASCII letters.
- `pathlib` beyond the name, the suffix and the sidecar rule: paths are strings, and relative paths (`os.path.relpath` in `add_files`) are not modelled.
- The clock: one `now` per operation, so two stamps taken within one call are equal.
- PyQt: visibility (including the scanner window hiding an empty list's box), titles, `setCurrentRow`, editable flags, layouts and signals; the dialogs' answers are parameters.
- `drop_area.py`, `file_info_box.py`, `result_page.py`, the wizard's page wiring (bijitags_wizard.py:50-60), `__init__.py` and the driver scripts under `bijiscan/`: outside the modelled core.
- `print` diagnostics.
- The order of a set's iteration and of the glob: every contract holds for every order.
- BijiRecord.Biji.Assign, BijiRecord.SetField: a stored value whose JSON type does not fit its field (a number for a string field, a string for `tags`) is not copied, and the fresh value stays, where biji.py:102 copies any value. The code then carries the foreign value on: `set()` of a string `tags` gives its characters (biji.py:83), a non-string `bijiMTime` raises TypeError at the comparison (biji.py:90, bijiscanner.py:53), and write_file writes the foreign values back. The record is typed, so none of these paths is modelled. The filepath test is not affected: it compares the stored value itself (`StalePath`).
- BijiRecord.FileName: a last component `.` is kept as the name (`a/.` gives `.`), where `PurePath` drops it and names `a`; empty components between slashes are handled as `PurePath` does.
- BijiRecord.OverlayTagsAndPath: takes the stored tags only from an array and the stored filepath only from a string, because of the typed record above.
- BijiRecord.LoadSpec: a stored `tags` value that is not an array gives no tags (`StoredTags`), where the code takes `set()` of it or raises; its rewrite condition is the code's.
- BijiRecord.Biji.FromFile: proved equal to `Load`, so it has both gaps above, and a rewritten sidecar holds the fresh values in place of mistyped stored ones.
- Preview.PreviewPage: `files` is the set of the paths the add-file page holds; after a Del the wizard hands over a list, whose order the model does not keep (`update_tags_for_files` visits the same paths either way).
- Helpers.DeleteFromList: the code looks each checked item's row up by identity; the model takes the checked rows out in row order, which removes the same rows.
- TagsManager.DeleteTags: the checked tags arrive as a parameter (their `Qt.UserRole` data); `update_all_tag_lists` afterwards is not modelled. The model keeps one database whose statements take effect at once, so it does not capture what a reading of the code suggests about the connection: delete_tag (bijidb/bijidatabase.py:316-317) does not commit, and the next checked tag's first `Biji.from_file` builds a `Biji` (bijitags/biji.py:98) whose constructor calls connect_db (bijitags/biji.py:55), which replaces `cls.db` with a new connection (bijidb/bijidatabase.py:183). With checked tags `[A, B]` and B linked to a file, A's uncommitted DELETE is then left on the old connection and plausibly rolled back when it is dropped, so A and its links would stay in the index while A's sidecars no longer carry it; if the old connection stays open instead, B's `update_biji_mtime` may fail with "database is locked". The success promise of `DeleteTags` holds for a single connection only.
- Preview.PreviewPage.InitializePage: the rows of the preview lists are modelled as unchecked items; their lack of a check box is not modelled.
- Tags.TagsPage.CleanupPage and Preview.PreviewPage.ValidatePage: the AttributeError of an attribute that was never assigned is the error `Unset`.
