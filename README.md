# pybites_blog pipeline, modelled in Dafny

This project models the logic of the pybites_blog data pipeline:

- **Sitemap url table.** `upsert_urls` stages a batch in `tmp_sitemap_url` and merges it with a left anti-join. `query_sitemap_url` lists a month's urls. `parse_and_write_blog_month` parses every article url of that month.
- **Bronze table.** `create_bronze_table` loads the Parquet rows into `tmp_table` and merges them on url and `date_modified`.
- **Silver table.** `backfill_silver_table` deletes a window of months. It then re-inserts, for every url, the latest bronze version with its derived columns.
- **RAG loader.** The token-window chunker, the document builder with its deterministic ids, the run-argument validation and window, and the two ingestion loops with their bookkeeping.
- **Dashboard.** The query behind the "recent articles" table, and the de-duplicated source table under a search answer.
- **Connectors.** The two connection classes, `DuckDBConnector` and `SupabaseConnector`, with their lazy connections and their transactions.

Tables are sequences of records (bags). SQL NULL is `Option`. Raised exceptions are `Result`/`Outcome` values.

A DuckDB statement is a function from catalog to catalog, and the DuckDB connector keeps a committed and a pending catalog. Outside the connectors, the outside world is passed in as a parameter:

- the clock;
- the Parquet reader;
- the page parser and the S3 writer;
- the tokenizer (`encode`/`decode`);
- the embedding service;
- the vector store's upsert, which may fail;
- the dashboard's database read.

Modules, one file each:

- `Wrappers`, `Text`, `Timestamps`: values, string functions, calendar.
- `Warehouse`: records and the DuckDB catalog.
- `AntiJoin`: the shared staging merge.
- `DuckDBClient`, `SupabaseClient`: the connectors.
- `BackfillBlogs`, `BronzeTables`, `SilverTables`: the warehouse layers.
- `RagChunking`, `RagPipeline`: the RAG loader.
- `Dashboard`: the dashboard logic.

## Model

| member | source | states |
|---|---|---|
| Text.Split | src/silver_tables.py:92-94 | every piece is free of the separator and there is at least one piece |
| Text.SplitPart | src/silver_tables.py:92-94 | `split_part`: the 1-based piece, counted from the end for a negative index, and "" when there is no such piece |
| Text.JoinSplit | src/silver_tables.py:92-94 | joining the pieces with the separator gives back the string |
| Text.SplitJoin | src/silver_tables.py:92-94 | splitting a join of separator-free parts gives back the parts |
| Text.SpacePieces | src/silver_tables.py:105 | `regexp_split_to_array(p, '\s+')` yields at least one piece and no piece holds whitespace |
| Text.SpacePiecesKeepText | src/silver_tables.py:105 | the pieces hold exactly the paragraph's non-whitespace characters, in order |
| Text.SpacePiecesOfWords | src/silver_tables.py:105 | words joined by single spaces split back into exactly those words |
| Text.NatToString | src/load_rag_db.py:65 | the decimal text is non-empty and all digits |
| Text.NatToStringInjective | src/load_rag_db.py:65 | different chunk numbers have different decimal texts |
| Text.QuotedList | src/pybites_streamlit.py:199 | no values give the empty text; a single selected value is put between single quotes verbatim, with no escaping |
| Text.QuotedListSnoc | src/pybites_streamlit.py:199 | each further value adds `, '` value `'` to the list, so several values come out as `'a', 'b', ...` in selection order |
| Timestamps.DaysInMonth | src/load_rag_db.py:292 | a month has 28 to 31 days, and 29 exactly for February of a leap year |
| Timestamps.CastTimestamp | src/silver_tables.py:60 | the start text casts to a timestamp exactly when its fields form a valid date-time, and then to those fields |
| Timestamps.DayBeforeFirstOf | src/silver_tables.py:59 | `date(y, m, 1) - 1 day` succeeds exactly for months 1..12 and years 1..9999 except 0001-01, and gives the previous month's length |
| Timestamps.LastDayOfMonthAsWritten | src/silver_tables.py:58-59 | `date(y, m + 1, 1) - 1 day` raises for December and gives the month's length otherwise |
| Timestamps.WindowIsWholeMonths | src/silver_tables.py:60-61 | the window from the first second of one month to the last second of another holds exactly the timestamps whose month lies between them |
| Timestamps.DayDiffSign | src/silver_tables.py:97 | `date_diff('day', a, b)` is negative exactly when b's date precedes a's, and zero exactly on the same date |
| Warehouse.AfterClose | src/db/duckdb_client.py:55-59 | closing drops temporary tables, loaded extensions and settings, and a `:memory:` database's tables; stored tables and installed extensions stay |
| Warehouse.ApplyEach | src/db/duckdb_client.py:34-35 | running a statement per tuple over no tuples changes nothing |
| AntiJoin.CountKeyPositive | src/backfill_blogs.py:83-86 | a url has joined target rows exactly when some target row carries it |
| AntiJoin.CountDifferingPositive | src/backfill_blogs.py:83-86 | a staged row passes the `<>` test for some joined row exactly when a target row of its url has a stamp SQL sees as different |
| AntiJoin.NullStampNeverDiffers | src/backfill_blogs.py:86 | a staged row with a NULL stamp never passes `t.last_modified <> main.last_modified` |
| AntiJoin.AppendedAreStaged | src/backfill_blogs.py:77-87 | every appended row is a staged row |
| AntiJoin.MergeMultiplicity | src/backfill_blogs.py:77-87 | each staged row is appended as often as it was staged times the number of its joined rows that pass the where clause |
| AntiJoin.AbsentKeyAppendedPerOccurrence | src/backfill_blogs.py:83-86 | a staged row whose url is absent from the target is appended once per staged occurrence |
| AntiJoin.PresentKeyAppendedPerDifferingVersion | src/backfill_blogs.py:83-86 | a staged row whose url is present is appended once per occurrence and per differing target version, and never when no version differs |
| AntiJoin.AppendsNothingIffSettled | src/backfill_blogs.py:77-87 | the merge appends nothing exactly when every staged url is present and none of its versions differs |
| AntiJoin.MergeIdempotentWhenNoStaleVersion | src/backfill_blogs.py:77-87 | with one stamp per staged url and no differing existing version, merging the batch a second time appends nothing |
| AntiJoin.ChangedVersionReappends | src/backfill_blogs.py:77-87 | once a url holds a version that differs from the staged one, every later merge appends the staged row again |
| AntiJoin.RerunCounterexample | src/backfill_blogs.py:77-87 | target [(u,1)] and batch [(u,2)]: the first merge appends (u,2) and the identical rerun appends it again |
| DuckDBClient.DuckDBConnector.constructor | src/db/duckdb_client.py:9-14 | remembers the path and opens nothing |
| DuckDBClient.DuckDBConnector.Connect | src/db/duckdb_client.py:16-20 | opens a connection only when there is none and returns the current one |
| DuckDBClient.DuckDBConnector.Execute | src/db/duckdb_client.py:22-28 | connects lazily; a failing statement changes nothing; a successful one takes effect, committed at once outside a transaction |
| DuckDBClient.DuckDBConnector.Executemany | src/db/duckdb_client.py:30-36 | connects lazily; no tuples raises "params is None" without running; otherwise one run per tuple in order, stopping at the first failure |
| DuckDBClient.DuckDBConnector.Rollback | src/db/duckdb_client.py:42-48 | discards the open transaction; with none the complaint is swallowed |
| DuckDBClient.DuckDBConnector.Commit | src/db/duckdb_client.py:50-53 | makes the pending work permanent; a no-op without a transaction |
| DuckDBClient.DuckDBConnector.Close | src/db/duckdb_client.py:55-59 | closes and forgets the connection, losing uncommitted work; a no-op when unconnected |
| DuckDBClient.DuckDBConnector.TransactionEnter | src/db/duckdb_client.py:61-67 | connects lazily and issues BEGIN; inside an open transaction BEGIN fails, the handler rolls back the outer transaction and re-raises |
| DuckDBClient.DuckDBConnector.TransactionExit | src/db/duckdb_client.py:68-72 | a normal exit commits; an exception rolls back and is re-raised, so the block's writes disappear |
| DuckDBClient.DuckDBConnector.CursorEnter | src/db/duckdb_client.py:74-80 | connects lazily and hands out the connection |
| DuckDBClient.DuckDBConnector.CursorExit | src/db/duckdb_client.py:81-82 | the connection is closed on every exit |
| DuckDBClient.EnableAwsForDuckdb | src/db/duckdb_client.py:84-104 | httpfs is installed and loaded and the region set; it succeeds exactly when both keys are set, then stores them; the session token is set only when present; otherwise it raises "No AWS credentials found"; nothing but extensions and settings changes |
| BackfillBlogs.BindUrlRow | src/backfill_blogs.py:64-69 | a parsed sitemap tuple binds to `values (?, ?)` exactly when it has two cells and the second is a date; a link cell binds as its text; a tuple of another length raises the parameter-count error |
| BackfillBlogs.BindEachRows | src/backfill_blogs.py:68-69 | binding the batch succeeds exactly when every tuple binds, and then gives each tuple's row in its place |
| BackfillBlogs.BindEachFirstError | src/backfill_blogs.py:68-69 | a failed batch raises the error of the first tuple that does not bind, every earlier tuple having bound |
| BackfillBlogs.UpsertEffect | src/backfill_blogs.py:46-96 | an empty batch changes nothing; otherwise the upsert succeeds exactly when every tuple binds and the target table exists; a binding failure is raised before the merge |
| BackfillBlogs.UpsertOnlyAppends | src/backfill_blogs.py:64-87 | old target rows stay in place and unchanged; every appended row is a bound tuple of the batch; other tables are untouched; staging holds the whole bound batch, duplicates included |
| BackfillBlogs.LoadStaging | src/backfill_blogs.py:64-75 | one `executemany` appends every bound tuple, in order, to the staging table, or raises the first binding error |
| BackfillBlogs.CreateUrlTable | src/backfill_blogs.py:26-44 | creates the table unless it exists; existing rows and every other part of the database are kept; outside a transaction the change is committed |
| BackfillBlogs.UpsertUrls | src/backfill_blogs.py:46-96 | inside one transaction: an empty batch runs no statement; otherwise one `executemany`, then the merge; a failing load or merge rolls back staging and merge together and is re-raised |
| BackfillBlogs.UrlsForMonthMembers | src/backfill_blogs.py:125-137 | a url is listed for a month exactly when a row of that year and month carries it (NULL timestamps never match) |
| BackfillBlogs.PagesMembers | src/backfill_blogs.py:146-150 | exactly the urls that are neither the index page nor end in png/jpeg/jpg are parsed |
| BackfillBlogs.ParseAllOk | src/backfill_blogs.py:146-150 | parsing succeeds exactly when every page parses, and yields each page's article in order |
| BackfillBlogs.FirstFailure | src/backfill_blogs.py:146-150 | the first page that fails to parse decides the month's error |
| BackfillBlogs.ParsePages | src/backfill_blogs.py:145-151 | the loop appends the article of each non-excluded url, in order |
| BackfillBlogs.ParseAndWriteBlogMonth | src/backfill_blogs.py:139-157 | no urls for the month returns 0 and writes nothing; otherwise it writes the parsed pages and returns how many were parsed |
| BackfillBlogs.MultiCellRows | src/backfill_blogs.py:183 | keeps exactly the sitemap rows with more than one cell |
| BackfillBlogs.MultiCellRowsAppend | src/backfill_blogs.py:183 | the filter keeps order: filtering two lists in turn is filtering them joined |
| BackfillBlogs.MultiCellRowsSingle | src/backfill_blogs.py:183 | a single row is kept, once, exactly when it has more than one cell; with the append lemma, order and duplicates are kept |
| BackfillBlogs.LoadSitemapUrls | src/backfill_blogs.py:182-184 | the script's sitemap step creates the url table if absent and upserts the kept rows, ending in exactly the upsert's effect or its error |
| BronzeTables.BronzeEffect | src/bronze_tables.py:46-81 | a successful run leaves the staging table holding exactly the source rows; a failed load is the run's error |
| BronzeTables.CreateBronzeTable | src/bronze_tables.py:19-86 | create, empty staging, load, merge and count run in one transaction; any error rolls everything back and is logged as "Error creating bronze table: <msg>" and re-raised; the count is the table's size after the merge |
| BronzeTables.RunBronzePipeline | src/bronze_tables.py:88-103 | with create-if-absent, the bronze table becomes its old rows followed by the anti-join appends of the source |
| BronzeTables.BronzeOnlyAppends | src/bronze_tables.py:70-76 | old bronze rows stay in place, every appended row is a source row, and the other tables are untouched |
| BronzeTables.NewUrlArrives | src/bronze_tables.py:70-76 | a source row with a url new to bronze is appended once per occurrence |
| BronzeTables.BronzeUnchangedIffSettled | src/bronze_tables.py:70-76 | the table is unchanged exactly when every source row is settled in it |
| BronzeTables.BronzeRerunAppendsNothing | src/bronze_tables.py:72-74 | with one `date_modified` per url and no differing existing version, loading the same files twice changes nothing the second time |
| BronzeTables.LoadResult | src/bronze_tables.py:46-76 | with the pipeline's create statement a loaded source always merges |
| SilverTables.DaysBetween | src/silver_tables.py:97 | NULL when either date is NULL; otherwise negative exactly when the modified date precedes the published date |
| SilverTables.ParagraphWords | src/silver_tables.py:105 | every paragraph counts at least one piece |
| SilverTables.TotalContentWords | src/silver_tables.py:104-108 | the word total is at least the paragraph count |
| SilverTables.DeriveAll | src/silver_tables.py:90-110 | one row per picked bronze row, in order, carrying its url and date_modified and the columns derived from it; the ids increase strictly and lie in `first .. first + n - 1` |
| SilverTables.Best | src/silver_tables.py:80 | the chosen version has the url's latest `date_modified` (NULLs last) among its versions |
| SilverTables.LatestDistinct | src/silver_tables.py:80-114 | `rn = 1` picks no url twice |
| SilverTables.LatestCovers | src/silver_tables.py:80-114 | every url of the window is picked |
| SilverTables.LatestIsLatest | src/silver_tables.py:80-114 | no version of the url sorts before the picked one |
| SilverTables.BronzeInWindowMembers | src/silver_tables.py:83-84 | the window holds exactly the bronze rows whose `date_modified` lies in it |
| SilverTables.KeepOutsideMembers | src/silver_tables.py:68-71 | the delete keeps exactly the rows outside the window, NULL dates included |
| SilverTables.DeletedAreThoseInWindow | src/silver_tables.py:68-73 | the deleted count is the number of rows in the window |
| SilverTables.BackfillEffect | src/silver_tables.py:66-118 | the transaction succeeds exactly when both tables exist and the start text casts to a timestamp |
| SilverTables.CreateSilverTable | src/silver_tables.py:20-52 | creates the table in a transaction unless it exists; an existing table is unchanged |
| SilverTables.BackfillSilverTable | src/silver_tables.py:54-121 | the window runs from the first of (year, month) to the end of the clock's month; in December it raises before any table is touched; otherwise the delete and insert commit together or roll back, are logged and re-raised |
| SilverTables.BackfillInTransaction | src/silver_tables.py:66-118 | the delete, insert and count inside the open transaction, committed or rolled back together |
| SilverTables.BackfillTable | src/silver_tables.py:68-116 | afterwards silver holds the kept rows followed by the derived latest version of every url in the window; bronze is untouched |
| SilverTables.BackfillKeepsOutside | src/silver_tables.py:68-71 | rows outside the window afterwards are the old ones, in their order |
| SilverTables.WindowSplit | src/silver_tables.py:68-114 | kept rows lie outside the window and inserted rows inside it |
| SilverTables.BackfillOneRowPerUrl | src/silver_tables.py:77-114 | afterwards no url has two rows in the window |
| SilverTables.BackfillCoversWindow | src/silver_tables.py:77-114 | every url with a bronze version in the window has a row in the window afterwards |
| SilverTables.BackfillPicksLatest | src/silver_tables.py:77-114 | a url's row in the window carries its latest in-window `date_modified` and is derived from one of its bronze versions |
| SilverTables.BackfillRerun | src/silver_tables.py:66-118 | a rerun over unchanged bronze leaves the same rows apart from fresh row ids |
| SilverTables.BackfillWindowMonths | src/silver_tables.py:56-61 | the backfill window takes a timestamp exactly when its month lies between (year, month) and the clock's month |
| SilverTables.UrlColumns | src/silver_tables.py:92-94 | for `scheme://host/category/slug/` the domain is `scheme://host`, the category and title are the two path segments |
| SilverTables.ParagraphWordCount | src/silver_tables.py:105 | a paragraph of single-space-separated words counts its words; an empty paragraph counts one |
| SilverTables.TotalContentWordsAppend | src/silver_tables.py:104-108 | the word total is the sum of the paragraphs' counts |
| RagChunking.PySlice | src/load_rag_db.py:45 | Python slicing: the in-range slice, and empty when the start is past the end |
| RagChunking.ChunkSpec | src/load_rag_db.py:44-49 | no chunk is empty |
| RagChunking.ChunkBlogs | src/load_rag_db.py:30-50 | the loop yields the decoded windows at starts 0, stride, ... below the character length, dropping empty ones |
| RagChunking.ChunkCount | src/load_rag_db.py:44-49 | when only empty windows decode empty, the chunk count is the number of starts below the smaller of character and token length |
| RagChunking.ShortBlogGivesTwoChunks | src/load_rag_db.py:44-49 | 380 tokens at 400/50 give two chunks, the second wholly inside the first |
| RagChunking.WindowsOverlap | src/load_rag_db.py:45-49 | consecutive windows share overlap_size tokens |
| RagChunking.EveryTokenCovered | src/load_rag_db.py:44-49 | with stride at most the chunk size and no more tokens than characters, every token lies in some window the loop reads |
| RagChunking.TailTokensNeverRead | src/load_rag_db.py:41-49 | the loop is bounded by the character length, so tokens from `((len - 1) // stride) * stride + chunk_size` on lie in no window; a text with more tokens than characters loses them |
| RagChunking.EmbedAll | src/load_rag_db.py:61 | on success one embedding per chunk, each the service's answer for its chunk |
| RagChunking.EmbedAllFails | src/load_rag_db.py:61 | embedding fails exactly when some chunk's embedding fails |
| RagChunking.DocumentsFor | src/load_rag_db.py:60 | a blog with NULL content raises a TypeError |
| RagChunking.DocumentsForShape | src/load_rag_db.py:52-79 | one document per chunk with id `{row_id}_{i}`, content chunk i, embedding i and the blog's metadata; an embedding failure is raised |
| RagChunking.CreateDocumentChunks | src/load_rag_db.py:52-79 | the method yields exactly those documents |
| RagChunking.DocIdsDistinct | src/load_rag_db.py:65 | ids are distinct within a blog |
| RagChunking.DocIdDeterminesRowAndChunk | src/load_rag_db.py:65 | for row ids without '_', an id determines its row and chunk number |
| RagPipeline.LastWithId | src/load_rag_db.py:91 | the last document with an id, and none exactly when no document carries it |
| RagPipeline.UpsertLookup | src/load_rag_db.py:91 | after an upsert an id maps to the last document carrying it, or keeps its old value |
| RagPipeline.UpsertIdempotent | src/load_rag_db.py:91 | upserting the same documents twice is the same as once |
| RagPipeline.UpsertStoresEach | src/load_rag_db.py:91 | with distinct ids every document is stored under its id |
| RagPipeline.IngestDocuments | src/load_rag_db.py:85-95 | no documents gives None and changes nothing; a failed upsert gives False and changes nothing; otherwise True and the documents are stored |
| RagPipeline.IngestDocumentsBatch | src/load_rag_db.py:97-109 | True exactly when there are documents and the upsert succeeds, and only then is the store changed |
| RagPipeline.BlogIngestIsIdempotent | src/load_rag_db.py:63-95 | ingesting a blog's documents again leaves the store as it was |
| RagPipeline.BlogDocumentsStored | src/load_rag_db.py:63-95 | after ingesting a blog, chunk i is stored under `{row_id}_{i}` |
| RagPipeline.Validate | src/load_rag_db.py:264-286 | the run is accepted exactly when all six checks pass, and a start year before 2021 is the reported rejection |
| RagPipeline.AcceptedRunIsOrdered | src/load_rag_db.py:264-286 | an accepted run has 2021 <= start <= end <= the current month |
| RagPipeline.PastYearLateMonthRejected | src/load_rag_db.py:284-286 | 2023-01..2023-12 requested in March 2024 is rejected as a future month |
| RagPipeline.DefaultEndAccepted | src/load_rag_db.py:250-286 | with the default end (the current year and month) any start from 2021 up to now is accepted |
| RagPipeline.RunWindow | src/load_rag_db.py:288-294 | the window is computed exactly when end_month < 12 and the end year is valid, and is first second to last second of the months |
| RagPipeline.RunWindowIsWholeMonths | src/load_rag_db.py:288-303 | the query window takes exactly the rows whose month is within the requested months |
| RagPipeline.DecemberRunRaises | src/load_rag_db.py:284-292 | an accepted run ending in December happens only in December and raises computing its window |
| RagPipeline.SelectModifiedInMembers | src/load_rag_db.py:299-303 | the query returns exactly the rows whose `date_modified` is in the window |
| RagPipeline.BlogStep | src/load_rag_db.py:305-312 | a blog that changes the store adds its document count |
| RagPipeline.RunLoopEndIsFinal | src/load_rag_db.py:305-316 | after a failed upsert or an exception, later blogs are never processed |
| RagPipeline.RunLoopAppend | src/load_rag_db.py:305-312 | the loop over two lists is the loop over the second from where the first ended |
| RagPipeline.FinishedCountsEveryDocument | src/load_rag_db.py:304-312 | a loop that finishes counts every document of every ingested blog |
| RagPipeline.RunPipeline | src/load_rag_db.py:234-318 | the method's outcome and store are those of the run specification; a rejected run changes nothing |
| RagPipeline.LoadBlogs | src/load_rag_db.py:304-313 | the loop over the selected blogs ends as the loop specification says: finished with the chunk total, stopped at a failed upsert, or raised by a document error |
| RagPipeline.ProcessBlog | src/load_rag_db.py:133-180 | skipped exactly for NULL, blank or chunkless content; processed only when the documents' upsert succeeds, adding them; otherwise the store is unchanged |
| RagPipeline.EveryBlogAccounted | src/load_rag_db.py:133-216 | every blog adds exactly one to processed + failed + skipped, and failed ids match the failed count |
| RagPipeline.GroupsPartition | src/load_rag_db.py:183-189 | the groups are consecutive, non-empty, at most batch_size long, ceil(n / batch_size) in number, and cover every blog once |
| RagPipeline.NoDiscrepancy | src/load_rag_db.py:216 | with a positive batch size the discrepancy warning never fires |
| RagPipeline.NegativeBatchLosesEveryBlog | src/load_rag_db.py:183 | a negative batch size makes `range` empty, so no blog is processed and every blog is unaccounted |
| RagPipeline.RunPipelineMemoryEfficient | src/load_rag_db.py:111-231 | the method's summary and store are those of the specification, processing the groups of batch_size in order |
| RagPipeline.ProcessInGroups | src/load_rag_db.py:183-197 | processing group after group gives the tally and store of processing every blog in order, and the groups are those of batch_size |
| RagPipeline.ProcessGroup | src/load_rag_db.py:189-197 | one group processes its blogs in order |
| SupabaseClient.FirstMissing | src/db/supabase_client.py:28-34 | none is missing exactly when every key is present |
| SupabaseClient.ConnectionParams | src/db/supabase_client.py:22-34 | given non-empty parameters are kept; otherwise exactly the five secrets keys, failing when the section or a key is missing |
| SupabaseClient.Passed | src/db/supabase_client.py:51-54 | parameters reach the cursor only when truthy |
| SupabaseClient.RunEach | src/db/supabase_client.py:63 | `executemany` over no tuples changes nothing |
| SupabaseClient.SupabaseConnector.constructor | src/db/supabase_client.py:22-34 | stores the parameters and opens nothing |
| SupabaseClient.SupabaseConnector.Connect | src/db/supabase_client.py:36-43 | reuses an open connection; otherwise opens a new one, and a refusal is re-raised |
| SupabaseClient.SupabaseConnector.Execute | src/db/supabase_client.py:45-55 | (re)connects when none or closed, runs the statement with parameters only when truthy, and commits nothing |
| SupabaseClient.SupabaseConnector.Executemany | src/db/supabase_client.py:57-64 | (re)connects and runs the statement once per tuple |
| SupabaseClient.SupabaseConnector.FetchAll | src/db/supabase_client.py:66-74 | every row, or the error; the cursor is closed either way |
| SupabaseClient.SupabaseConnector.FetchOne | src/db/supabase_client.py:76-84 | the first row or None, or the error; the cursor is closed either way |
| SupabaseClient.SupabaseConnector.Rollback | src/db/supabase_client.py:86-92 | discards uncommitted work on an open connection; otherwise a no-op |
| SupabaseClient.SupabaseConnector.Commit | src/db/supabase_client.py:94-97 | makes the session's work permanent on an open connection; otherwise a no-op |
| SupabaseClient.SupabaseConnector.Close | src/db/supabase_client.py:99-103 | closes an open connection and sets it to None |
| SupabaseClient.SupabaseConnector.TransactionEnter | src/db/supabase_client.py:106-109 | (re)connects when needed |
| SupabaseClient.SupabaseConnector.TransactionExit | src/db/supabase_client.py:111-116 | a normal exit commits; an exception rolls back and is re-raised |
| SupabaseClient.SupabaseConnector.Enter | src/db/supabase_client.py:118-121 | connects on entry |
| SupabaseClient.SupabaseConnector.Exit | src/db/supabase_client.py:123-129 | rolls back after an exception and commits otherwise, then closes in both cases |
| Dashboard.LStrip | src/pybites_streamlit.py:222-233 | `str.lstrip()`: a suffix of the text that starts with a non-space, after a blank prefix |
| Dashboard.StrippedClauses | src/pybites_streamlit.py:194-219 | each stripped clause starts at its keyword: `and author in (...)`, `and tags @> array[...]`, `or tags @> array[...]`, `order by date_published desc limit n` |
| Dashboard.AuthorAndTagQuery | src/pybites_streamlit.py:186-233 | with both lists chosen, the query is the base `where 1=1` query, the author condition, the tag condition (`and` for "And", `or` otherwise) and the order clause |
| Dashboard.ChoiceNeedsAuthor | src/pybites_streamlit.py:220-231 | without an author condition the choice makes no difference |
| Dashboard.FetchEach | src/pybites_streamlit.py:192-235 | reading the queries in turn returns the last result when all succeed |
| Dashboard.GetRecentArticles | src/pybites_streamlit.py:184-239 | the reads issued, in order, are a prefix of the specified ones (all on success); the result is the rows when the final query returns any, None when it returns none, or the first failure |
| Dashboard.ReadsAndFilters | src/pybites_streamlit.py:191-214 | the unfiltered reads happen for an empty selection and for each list holding "All", stopping at the first failure; otherwise the author and tag conditions are set exactly for lists without "All" |
| Dashboard.FinalQuery | src/pybites_streamlit.py:216-233 | the assembled query is the specified recent-articles query for the selection, limit and choice |
| Dashboard.FilterText | src/pybites_streamlit.py:220-231 | the stripped author condition, then the `or` tag condition when the choice is not "And" and both conditions are set, the `and` tag condition otherwise |
| Dashboard.FetchFirstFails | src/pybites_streamlit.py:192-214 | an early read that fails after successful ones is what the whole call raises |
| Dashboard.FormatMetadata | src/pybites_streamlit.py:248-275 | no hits gives no table; otherwise the four equal-length columns of the hits kept by first-seen url |
| Dashboard.FirstIndex | src/pybites_streamlit.py:258 | the first position holding a url, and no earlier position holds it |
| Dashboard.FirstSeenUrlsDistinct | src/pybites_streamlit.py:258-262 | no url appears twice in the table |
| Dashboard.FirstSeenCoversEvery | src/pybites_streamlit.py:258-262 | every hit's url is in the table |
| Dashboard.FirstSeenIsFirst | src/pybites_streamlit.py:258-262 | the row kept for a url is the first hit with that url |
| Dashboard.FirstSeenInOrder | src/pybites_streamlit.py:258-262 | rows follow the order in which their urls first appear |
| Dashboard.FirstSeenIdempotent | src/pybites_streamlit.py:250-262 | de-duplicating the kept hits again keeps them all |

## Left out

- Page scraping and parsing, the Parquet reader and the S3 writer are parameters. `blog_parser` is not part of this model.
- The vector store client (`rag_client`) is a parameter. Its upsert is all-or-nothing, storing documents by id, last one wins. The OpenAI embedding client and the tiktoken tokenizer are also parameters.
- `asyncio` (`gather`, `Semaphore`, `to_thread`, `sleep`) is not modelled: blogs and groups are processed one after another. The outer exception branch of the group loop is never reached, because the inner handler catches everything.
- Logging text is not modelled, except the bronze error text and the log/return decisions. `check_table_data` and `test_s3_read` are diagnostic readers and are not modelled. Module-level connector setup and AWS enabling at import time are not modelled either; `src/backfill_blogs.py:3` imports an `enable_aws_for_database` that the DuckDB client does not define.
- Timestamps carry whole seconds. String-to-timestamp casts are modelled only for the `{y}-{m:02d}-01 00:00:00` start text. Hive-partition path globbing and the `year`/`month` partition columns of the Parquet files are not modelled.
- Row order: the database returns rows in an unspecified order, while the model writes the merge in staging order and the inserts in first-url order. The anti-join lemmas are stated on multiplicities, which do not depend on that order.
- `row_number()` ties among equal `date_modified` values are broken by taking the first row in table order; the database may pick any of them.
- `uuid()` is modelled as a counter of fresh ids.
- The `metadata` column of a document is a record of the blog's fields; `json.dumps` and `str()` formatting are not modelled.
- Supabase: psycopg2's aborted-transaction state after a failed statement is not modelled. Whether the server accepts a connection is a parameter. A connection lost underneath the connector is the `ConnectionLost` event.
- The Streamlit rendering (`st.dataframe`, `pd.DataFrame`, link columns) is left out: `FormatMetadata` returns the table that would be shown, and `GetRecentArticles` returns the rows. The database read behind the dashboard is a parameter.
- Dashboard.FormatMetadata: a hit without a `metadata` entry, which would raise in the source, is not modelled; every hit carries the four fields.
- RagChunking.ChunkBlogs: requires chunk_size > overlap_size, or empty text. Otherwise the source loops forever, which a terminating method cannot express.
- RagChunking.ChunkCount: proved under the assumption that `decode` yields "" exactly for an empty window.
- The url table's `id` column and its `{table}_seq` sequence (src/backfill_blogs.py:29-31) are not modelled: a url row is its url and `last_modified`, and the anti-join never reads the id.
- A sitemap link cell without an `href` gives a NULL url, which the model cannot express: a link cell always carries its text.
- BackfillBlogs.BindUrlRow: a link text in the timestamp position is taken to fail the timestamp cast; a link that itself reads as a timestamp would be accepted by DuckDB. Dates parsed with a time zone or fractional seconds are not modelled; a date cast to text has whole seconds.
- A failing `INSTALL httpfs` or `LOAD httpfs` (no network, for example) is not modelled: `DuckDBClient.Configure` runs only statements that succeed.
- `asyncio.Semaphore(concurrent_blogs)` with 0, which blocks forever, or a negative value, which raises `ValueError`, is not modelled, as the rest of `asyncio` is not.
