# PRPE import core in Dafny

A Dafny model of the data-import side of PRPE. The model covers:

- the realtime vehicle-position downloader (`download_json` and its saved file name);
- the large GTFS downloader (`stream_download` with its dated paths, Range resume, attempt loop and byte counter);
- the choice of the newest dated file (`find_latest_file_in_dir`);
- the day-to-day checksum comparison (`compare_today_with_previous_day_checksum`);
- the import of a JSON file of station URLs (`import_stops_urls.main`);
- the import of a GTFS stops.txt table (`import_stops.main`);
- the two record types behind these imports (`URLScrap`, `Stop`) and their enumerations.

Everything outside the program becomes an input:

- An HTTP server is a total function from the attempt number to the reply. For the GTFS download, the function also takes the Range offset requested.
- The filesystem is a map from path to bytes.
- A directory listing and a SHA-256 digest are functions.
- The clock reading is a parameter. The random User-Agent is a string, or a function of the attempt number.
- The database is the set of URLs and the set of stop ids already stored.
- A stops.txt table is a set of column names and a sequence of rows. A row maps a column name to a cell; a NaN cell or a missing column is absent from the row.

Each loop of the source is a method that is proved equal to a recursive specification function of its inputs. The properties the source promises are proved as lemmas about that function.

Modules:

- `Common`: Python `str(int)`, `int(str)`, `str.strip`, string order and `split`.
- `Clock`: `datetime` and the `strftime` formats used.
- `PosixPath`: `dirname`, `basename`, `join`.
- `Orm`: the keyword `setattr` loop of the mapped constructors.
- `RealtimeRenfe`, `GtfsRenfe`, `UrlScrapModel`, `StopModel`, `StopsUrlsImport`, `StopsImport`: one per source file.
- `GtfsResume`: the two findings below.

## Model

| member | source | states |
|---|---|---|
| RealtimeRenfe.BuildHeaders | src/apps/import/import_realtime_renfe.py:40-44 | exactly one header, `User-Agent`, holding the UA string |
| RealtimeRenfe.FileName | src/apps/import/import_realtime_renfe.py:52-53 | the saved name is 30 characters long |
| RealtimeRenfe.FileNameShape | src/apps/import/import_realtime_renfe.py:52-53 | the name matches `^\d{4}-\d{2}-\d{2}-\d{2}-\d{2}-\d{2}-renfe\.json$`, and reading the stamp back gives the clock reading |
| RealtimeRenfe.DownloadJson | src/apps/import/import_realtime_renfe.py:61-102 | return value, request count and written files equal the retry specification `Run`; request i sends `build_headers` with UA i |
| RealtimeRenfe.CallsBounded | src/apps/import/import_realtime_renfe.py:69-72 | at most `max_attempts` requests, and at least one when `max_attempts` > 0 |
| RealtimeRenfe.WritesOnlyOnSuccess | src/apps/import/import_realtime_renfe.py:79-86 | false iff nothing written; true means the last reply was a parseable 200 and exactly one file holds its body |
| RealtimeRenfe.StopsAtFirstDecisive | src/apps/import/import_realtime_renfe.py:79-94 | every reply before the last was retryable; a decisive last reply gives true iff accepted; a retryable last reply means every attempt was used |
| RealtimeRenfe.RetriesThenSuccess | src/apps/import/import_realtime_renfe.py:69-94 | k retryable replies, then a parseable 200: true after exactly k+1 requests, one file |
| RealtimeRenfe.RetriesThenDenied | src/apps/import/import_realtime_renfe.py:87-94 | k retryable replies, then 401/403: false after exactly k+1 requests, no file |
| RealtimeRenfe.AllAttemptsFail | src/apps/import/import_realtime_renfe.py:69-102 | all replies retryable: exactly `max_attempts` requests, false, no file |
| RealtimeRenfe.FirstReplyAccepted | src/apps/import/import_realtime_renfe.py:79-86 | a parseable 200 first: one request, one file, true |
| RealtimeRenfe.FirstReplyDenied | src/apps/import/import_realtime_renfe.py:87-89 | a 401/403 first: one request, no file, false, whatever `max_attempts` is |
| RealtimeRenfe.NoAttempts | src/apps/import/import_realtime_renfe.py:69-71 | `max_attempts` <= 0: no request, false |
| Clock.StampText | src/apps/import/import_realtime_renfe.py:52 | `%Y-%m-%d-%H-%M-%S` is 19 characters |
| Clock.StampTextShape | src/apps/import/import_realtime_renfe.py:52 | digits everywhere except dashes at positions 4, 7, 10, 13, 16 |
| Clock.StampRoundTrip | test/apps/imports/test_import_realtime_remfe.py:149-151 | parsing the stamp text back gives the same date-time |
| Clock.DateText | src/apps/imports/import_gtfs_renfe.py:82-83 | `%Y-%m-%d` is 10 characters |
| Clock.DateTextShape | src/apps/imports/import_gtfs_renfe.py:82-83 | the date text is `dddd-dd-dd` with no `_` or `/` |
| PosixPath.Basename | src/apps/imports/import_gtfs_renfe.py:86 | a base name holds no slash |
| PosixPath.DirnameShaped | src/apps/imports/import_gtfs_renfe.py:85 | `dirname` is empty, all slashes, or does not end in a slash |
| PosixPath.JoinSplits | src/apps/imports/import_gtfs_renfe.py:88-89 | `dirname(join(d, n)) == d` and `basename(join(d, n)) == n` for a plain name n |
| GtfsRenfe.PartialPath | src/apps/imports/import_gtfs_renfe.py:97-98 | the partial path is the final path plus `.partial`, and differs from it |
| GtfsRenfe.FinalPathLayout | src/apps/imports/import_gtfs_renfe.py:81-90 | final path is `dirname(out)/D/D_basename(out)` with D the date text |
| GtfsRenfe.RangeRoundTrip | src/apps/imports/import_gtfs_renfe.py:111-113 | `bytes=<n>-` reads back as n |
| GtfsRenfe.RequestHeaders | src/apps/imports/import_gtfs_renfe.py:110-113 | every base header is copied with its value, except that Range is set to `bytes=<resume_from>-` when `resume_from > 0`; no other key is added, and with no offset the headers are the base unchanged |
| GtfsRenfe.RangeIffResuming | src/apps/imports/import_gtfs_renfe.py:110-113 | Range present iff `resume_from > 0`, naming that offset; the User-Agent is kept |
| GtfsRenfe.OpenMode | src/apps/imports/import_gtfs_renfe.py:139 | append iff `resume_from > 0` |
| GtfsRenfe.ConcatNonEmpty | src/apps/imports/import_gtfs_renfe.py:144-146 | skipping empty chunks loses no byte |
| GtfsRenfe.WriteChunks | src/apps/imports/import_gtfs_renfe.py:140-148 | the file gains all chunk bytes in order; `downloaded = resume_from + bytes`; only non-empty chunks are written |
| GtfsRenfe.StreamDownload | src/apps/imports/import_gtfs_renfe.py:68-179 | result, attempts and filesystem equal the loop specification `Run`, with `resume_from` read once from the partial file; every attempt sends the Range rule's headers |
| GtfsRenfe.RunBounded | src/apps/imports/import_gtfs_renfe.py:105-179 | at most `max_attempts` attempts; true only after a completed stream of an accepted reply; false only once every attempt is used |
| GtfsRenfe.RunFrame | src/apps/imports/import_gtfs_renfe.py:143-170 | only the partial and final files change; success removes the partial file and writes the final one; failure leaves the final file as it was |
| GtfsRenfe.FreshDownloadSavesBody | src/apps/imports/import_gtfs_renfe.py:101-170 | no partial file, failures, then a complete 200: success on that attempt, and the final file is exactly its body |
| GtfsRenfe.ResumedDownloadAppends | src/apps/imports/import_gtfs_renfe.py:101-170 | a non-empty partial file, failures, then a complete 206: success on that attempt, the final file is the partial file's bytes followed by the body, and the partial file is gone |
| GtfsRenfe.RejectedAttemptsChangeNothing | src/apps/imports/import_gtfs_renfe.py:124-129 | the status rule `AcceptStatus` (200, or 206 only when resuming): when every remaining reply fails or is refused by it, all attempts are used, the result is false and no file changes |
| GtfsRenfe.CounterMatchesFileOnFirstAcceptedAttempt | src/apps/imports/import_gtfs_renfe.py:139-148 | on the first accepted attempt the byte counter equals the length of the written file |
| GtfsRenfe.Candidates | src/apps/imports/import_gtfs_renfe.py:194-197 | a name is kept iff it ends in `_<basename>` and the text before its first `_` is 10 characters |
| Common.BeforeFirst | src/apps/imports/import_gtfs_renfe.py:196 | `split("_", 1)[0]`: the longest prefix without `_`, followed by `_` or the end |
| Common.LexLessIrreflexive | src/apps/imports/import_gtfs_renfe.py:204 | Python string order is irreflexive |
| Common.LexLessTransitive | src/apps/imports/import_gtfs_renfe.py:204 | Python string order is transitive |
| Common.LexLessTotal | src/apps/imports/import_gtfs_renfe.py:204 | Python string order is total |
| Common.LexLessAsymmetric | src/apps/imports/import_gtfs_renfe.py:204 | Python string order is asymmetric |
| GtfsRenfe.Greatest | src/apps/imports/import_gtfs_renfe.py:204-205 | the last element after `sort()`: a member of the list, not below any other |
| GtfsRenfe.GreatestUnique | src/apps/imports/import_gtfs_renfe.py:204-205 | any member not below the others is the one `Greatest` gives |
| GtfsRenfe.FindLatest | src/apps/imports/import_gtfs_renfe.py:182-218 | Some iff the path lists as a directory with a candidate; the path joins the directory with the greatest candidate |
| GtfsRenfe.SavedNameIsCandidate | src/apps/imports/import_gtfs_renfe.py:194-197 | the name `stream_download` saves passes the candidate filter for its base name |
| GtfsRenfe.SavedFileIsFound | src/apps/imports/import_gtfs_renfe.py:194-206 | once the dated directory lists the saved file, a file is found, with a non-empty path, whose name is a candidate no smaller than the saved name in Python's string order |
| GtfsRenfe.LatestNotBelow | src/apps/imports/import_gtfs_renfe.py:192-206 | any listed candidate makes the search succeed, with a candidate no smaller than it |
| Common.LexLessConcat | src/apps/imports/import_gtfs_renfe.py:203-204 | strings whose first parts have one length compare by those parts, then by the rest |
| Common.LexLessDigits | src/apps/imports/import_gtfs_renfe.py:203-204 | digit strings of one length compare as text exactly as their values compare as numbers |
| Clock.FieldOrder | src/apps/imports/import_gtfs_renfe.py:203 | zero-padded fields of one width compare as text as their values do, and are equal iff the values are |
| Clock.DashedOrder | src/apps/imports/import_gtfs_renfe.py:203 | two texts joined by `-` compare and agree part by part |
| Clock.DateTextOrder | src/apps/imports/import_gtfs_renfe.py:203 | `%Y-%m-%d` texts are in string order iff their days are in calendar order, and equal iff the days are |
| GtfsRenfe.DatedNameOrder | src/apps/imports/import_gtfs_renfe.py:203-205 | "lexical sort works with date prefix": names `<YYYY-MM-DD>_<basename>` sort in calendar order, and are equal iff their days are |
| GtfsRenfe.PreviousDay | src/apps/imports/import_gtfs_renfe.py:240 | the result is a valid date before `d` with no valid date strictly between them, so it is the calendar day before; hour, minute and second are kept |
| GtfsRenfe.BaseDir | src/apps/imports/import_gtfs_renfe.py:236 | `dirname(out) or "."` is never empty |
| GtfsRenfe.Compare | src/apps/imports/import_gtfs_renfe.py:221-256 | "same" iff both files were found (not None, not empty) and both digests were computed and are equal |
| GtfsRenfe.CompareLooksInDatedDirs | src/apps/imports/import_gtfs_renfe.py:236-247 | the files compared are the latest candidates of today's and yesterday's dated directories under `dirname(out) or "."`, which for an out path with a directory are the directories `stream_download` saves into |
| GtfsRenfe.CompareFindsSavedFile | src/apps/imports/import_gtfs_renfe.py:244-249 | when the directory compared for today (`<dirname or ".">/<date>`) lists what `stream_download`'s dated directory lists, including the file saved today, the comparison has a today file there: a candidate no smaller than the saved name. This holds for a bare out name too, where the two are `./D` and `D` |
| GtfsResume.BrokenResumeDuplicatesBytes | src/apps/imports/import_gtfs_renfe.py:101-140 | as written: the correct server, a resumed download and one broken stream give 1,2,3,3,4 for resource 1,2,3,4; the resuming loop saves the resource |
| GtfsResume.FullReplyAppended | src/apps/imports/import_gtfs_renfe.py:126-139 | as written: a 200 reply to a Range request is appended to the partial file (1,2,1,2,3,4); the resuming loop saves the resource |
| GtfsResume.ResumingSavesResource | src/apps/imports/import_gtfs_renfe.py:100-170 | corrected loop: with a correct server and a partial file holding a prefix, success means the final file is exactly the resource |
| Orm.ApplyAt | src/data_model/stop.py:57-59 | after the setattr loop an attribute holds the last supplied value for it if it is an attribute name, else what it held before |
| Orm.ApplyTwice | src/data_model/stop.py:55-59 | running the same assignments twice changes nothing |
| UrlScrapModel.UrlTypeOfValue | src/data_model/url_scrap.py:49-61 | `URLType(v)` is defined iff v is 0 or 1, and the member has that value |
| UrlScrapModel.UrlTypeNamed | src/data_model/url_scrap.py:49-61 | `URLType[n]` is defined iff n is `ADIF_WEB` or `ADIF_JS_INFO`, and the member has that name |
| UrlScrapModel.UrlTypeRoundTrips | src/data_model/url_scrap.py:49-61 | value to member and name to member both invert; the two members differ in value and in name |
| UrlScrapModel.ColumnConstraints | src/data_model/url_scrap.py:103-109 | `url_id` primary key; `url` unique; `url`, `url_type` not nullable; `stop_id` the only nullable column and foreign key, to `stop.stop_id` |
| UrlScrapModel.Construct | src/data_model/url_scrap.py:112-129 | the setattr loop equals `Assign`: keys set in order, a string `stop` stored in `stop_id` |
| UrlScrapModel.AssignKeys | src/data_model/url_scrap.py:124-125 | keys that are not attributes are ignored |
| UrlScrapModel.AssignPlain | src/data_model/url_scrap.py:124-129 | `url_id`, `url`, `url_type` hold the last supplied value, or nothing |
| UrlScrapModel.ObjectHook | src/data_model/url_scrap.py:131-171 | None iff one of `url`, `url_type`, `stop` is missing; error iff all are present and the name is not a member |
| UrlScrapModel.HookFields | src/data_model/url_scrap.py:165-171 | a decoded entry holds `url`, the named member and the stop: in `stop_id` if it is a string, in `stop` otherwise; nothing else |
| StopModel.LocationTypeOf | src/data_model/stop.py:20-25 | `LocationType(v)` is defined iff 0 <= v <= 4, with that value |
| StopModel.LocationTypeRoundTrip | src/data_model/stop.py:20-25 | member to value to member is the identity; values are 0..4 |
| StopModel.WheelchairBoardingOf | src/data_model/stop.py:27-30 | `WheelchairBoarding(v)` is defined iff 0 <= v <= 2, with that value |
| StopModel.WheelchairBoardingRoundTrip | src/data_model/stop.py:27-30 | member to value to member is the identity; values are 0..2 |
| StopModel.ColumnConstraints | src/data_model/stop.py:35-49 | `stop_id` is the only primary key and the only column that is not nullable; `parent_station_id` references `stop.stop_id`, `level_id` references `level.level_id`, no other column is a foreign key |
| StopModel.AttributesAreColumns | src/data_model/stop.py:35-53 | the attributes are the 15 columns and the three relationships |
| StopModel.Build | src/data_model/stop.py:55-56 | a Stop iff every key names an attribute; otherwise the error names a supplied key that is not one |
| StopModel.Construct | src/data_model/stop.py:55-59 | the base constructor plus the class's own loop equal `Build` |
| StopModel.AssignedAttributes | src/data_model/stop.py:55-59 | with distinct, valid keys each supplied key holds its value and every other attribute is unset |
| StopsUrlsImport.Load | src/apps/import/import_stops_urls.py:24-25 | the hooked entries in file order, or a failure iff some entry names an unknown URL type |
| StopsUrlsImport.Decide | src/apps/import/import_stops_urls.py:29-40 | add iff URL new and stop known; skip iff URL known and skip set; abort otherwise (URL known without skip, or new URL with unknown stop) |
| StopsUrlsImport.Import | src/apps/import/import_stops_urls.py:23-42 | the loop equals the specification `Main`; `count_urls` is the number of records added |
| StopsUrlsImport.RunValid | src/apps/import/import_stops_urls.py:28-33 | every added record has a known stop, a URL not stored before and a URL no other added record has; earlier additions are kept |
| StopsUrlsImport.RunEnds | src/apps/import/import_stops_urls.py:28-42 | commit only after the last entry; a crash at an entry the hook made None; an abort at a decoded entry |
| StopsUrlsImport.AbortReason | src/apps/import/import_stops_urls.py:31-40 | an aborted run stops at an entry whose action was Abort against the stored URLs plus those the run added |
| StopsUrlsImport.RunDecoded | src/apps/import/import_stops_urls.py:28-42 | every entry examined before the last was decoded, and so was every entry of a committed run |
| StopsUrlsImport.UrlsHas | src/apps/import/import_stops_urls.py:29-32 | the URL of every record added and flushed is in the table the next count query sees |
| StopsUrlsImport.StepCases | src/apps/import/import_stops_urls.py:31-40 | the four outcomes of one entry, in the order the branches test them |
| StopsUrlsImport.StrictRunAddsAll | src/apps/import/import_stops_urls.py:28-42 | without skip, a committed run added every entry, in file order |
| StopsUrlsImport.MainCommits | src/apps/import/import_stops_urls.py:23-42 | `main` commits only once every entry has been loaded, decoded and examined |
| StopsUrlsImport.MainAborts | src/apps/import/import_stops_urls.py:29-40 | when `main` aborts, the last entry examined was decoded and its action was Abort |
| StopsUrlsImport.MainAddsValid | src/apps/import/import_stops_urls.py:28-33 | whatever the outcome, the records `main` added are valid |
| Common.Strip | src/apps/imports/import_stops.py:57 | the result is empty or has no whitespace at either end |
| Common.StripRemovesEnds | src/apps/imports/import_stops.py:57 | the result is a slice of the text with only whitespace before and after it |
| Common.StripEmptyIffAllSpace | src/apps/imports/import_stops.py:57 | `strip()` is empty iff the text is all whitespace |
| Common.IntToStr | src/apps/imports/import_stops.py:83 | `str(i)` is non-empty with no whitespace at either end |
| Common.ParseIntRoundTrip | src/apps/imports/import_stops.py:66 | `int(str(i)) == i` |
| StopsImport.LocationOf | src/apps/imports/import_stops.py:63-68 | a member iff the cell is present, converts with `int` and is in 0..4; the member has that value |
| StopsImport.WheelchairOf | src/apps/imports/import_stops.py:70-75 | a member iff the cell is present, converts with `int` and is in 0..2; the member has that value |
| StopsImport.FieldsLookup | src/apps/imports/import_stops.py:82-98 | looking a key up in the dict literal gives the value computed for that key, and nothing for keys it lacks |
| StopsImport.FieldsDistinct | src/apps/imports/import_stops.py:82-98 | the literal's keys are distinct and all name Stop attributes |
| StopsImport.DropNone | src/apps/imports/import_stops.py:101 | every kept pair comes from a field whose value was not None |
| StopsImport.LookupDropNone | src/apps/imports/import_stops.py:101 | after the filter a key holds its value iff that value was not None |
| StopsImport.RowStopAttributes | src/apps/imports/import_stops.py:56-108 | attribute by attribute: `stop_id` is `str(sid)`; the enumerations hold the converted member or nothing; `parent_station_id` comes from `parent_station_id` or `parent_station` as the table's columns say; eleven attributes copy the cell of the same name; nothing else is set |
| StopsImport.FieldValuesHold | src/apps/imports/import_stops.py:82-98 | attributes holding the dict literal's values hold, key by key, the row's cells as the literal reads them |
| StopsImport.CopiedValue | src/apps/imports/import_stops.py:84-97 | each of the eleven copied keys holds the row's cell of the same name |
| StopsImport.RowMapping | src/apps/imports/import_stops.py:56-108 | a row gives a Stop iff its `stop_id` is present and not blank; each attribute holds the dict literal's value for it (text `stop_id`, converted enums, parent from the chosen column), and None-valued fields stay unset |
| StopsImport.SkippedAreBlankIds | src/apps/imports/import_stops.py:56-108 | the rows skipped are exactly those without a usable `stop_id` |
| StopsImport.ImportStops | src/apps/imports/import_stops.py:20-121 | session untouched iff no stops table, None or empty; otherwise the records of the non-skipped rows in order, `created` their count, `skipped` the rest, summing to the row count |
| StopsImport.ModelsAppend | src/apps/imports/import_stops.py:110-111 | the records keep row order |
| StopsImport.ModelsHaveKeys | src/apps/imports/import_stops.py:56-83 | every record created has a non-blank text `stop_id` |

## Left out

- The scrape scheduler with its priority queue and +5/+1 minute rescheduling is not modelled. src/scrap/order.py holds a two-field record with no ordering, and src/apps/scrap/scrap_stops.py only loads the stop list, so the code has no scheduler to model.
- Real HTTP, TLS, proxies and `fake_useragent` are not modelled. Replies are inputs; the User-Agent is an input string.
- `stream_download` reads `verify_tls`, which its signature does not define. The flag has no effect on the model, and the resulting NameError is not modelled.
- Sleeps, backoff, the random timeouts of `download_json`, speed/ETA, `format_bytes` and progress logging are floating point and timing. They are outside the model.
- Logging, argparse and the `__main__` blocks are plumbing and are not modelled.
- `download_json` inspects the Content-Type, and `stream_download` parses Content-Length. Both only feed log messages, so neither is modelled.
- `save_json_to_file` re-serialises with `json.dump`; the model stores the parsed body as its text. `os.makedirs` is not modelled, and neither is an OSError that open, write or replace raises there.
- `stream_download`: an OSError from `os.makedirs` before the loop is not modelled. Inside the loop, an OSError from open, write or `os.replace` is caught and retried like a RequestException (src/apps/imports/import_gtfs_renfe.py:172). The model has no such failure: an attempt fails only as a failed request or as an incomplete stream, and its chunks always reach the partial file.
- Clock.DateText: `%Y` is written as four zero-padded digits. C libraries write years below 1000 with fewer digits; such years are outside what the downloaders meet.
- GtfsRenfe.FindLatest: does not resolve a symlinked latest file to its target (readlink and abspath are filesystem calls). The model returns the joined path.
- `sha256_file` is an input function. `deduplicate_today_with_symlink` (delete and symlink) is filesystem I/O and is not modelled.
- GtfsRenfe.PreviousDay: requires a date after 0001-01-01. On that date `datetime.now() - timedelta(days=1)` raises OverflowError, which the model does not represent; GtfsRenfe.Compare carries the same requirement.
- `import_gtfs_renfe.build_headers` returns the same User-Agent-only dict as the realtime downloader's `build_headers`, so the model defines it once, as RealtimeRenfe.BuildHeaders.
- GtfsRenfe.Compare: uses one date for today. The source calls `datetime.now()` twice, so a run that crosses midnight could look at two days that are not consecutive.
- SQLAlchemy itself is outside the model: flush and commit errors, the NOT NULL/UNIQUE/foreign-key checks at commit, the outer `except` at src/apps/imports/import_stops.py:120-121, and `session.add` beyond the list of added records.
- The URL import relies on autoflush, SQLAlchemy's default: a URL added earlier in the run counts as existing for later entries.
- `hasattr` is true for more names than the mapped attributes (for example `metadata`). The model filters keys by the mapped attributes only.
- Assigning a non-Stop value to the `stop` relationship raises in SQLAlchemy; the model stores it.
- The `back_populates="urls"` of `URLScrap.stop` names a relationship that Stop lacks; mapper configuration is not modelled.
- src/data_model/level.py is not part of this model.
- JSON arrays, objects and floats are one `JOther` value. A top level that is not a list of objects is not modelled.
- Stop data in cells is text or an integer. Float cells (`int(2.0)`, latitudes as floats) and `int` accepting underscores or non-ASCII digits are not modelled.
- The realtime docstring says the file name ends in `_renfe.json`; the code and its tests write `-renfe.json`, which is what the model does.

## Findings

| source | as written | input that shows it | evidently intended | confidence | as-written member | corrected member |
|---|---|---|---|---|---|---|
| src/apps/imports/import_gtfs_renfe.py:101-140 | `resume_from` is read once before the attempt loop, and every later attempt requests that offset and appends | partial file 1,2 of resource 1,2,3,4; attempt 1 gets 206 with byte 3 and the stream breaks; attempt 2 asks from offset 2 again and appends 3,4: final file 1,2,3,3,4 | read the partial file's size before each attempt | not executed | GtfsResume.BrokenResumeDuplicatesBytes | GtfsResume.ResumingSavesResource |
| src/apps/imports/import_gtfs_renfe.py:126-139 | a 200 reply is accepted while resuming, and the file is still opened in append mode | partial file 1,2; the server ignores Range and sends 200 with 1,2,3,4: final file 1,2,1,2,3,4 | write from scratch when the reply is 200 | not executed | GtfsResume.FullReplyAppended | GtfsResume.ResumingSavesResource |
