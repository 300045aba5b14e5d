# Streptococcus mutans structure pipeline, in Dafny

This project models the decision logic of the scripts of a structural
annotation pipeline for *Streptococcus mutans* proteins:

- **The Foldseek web search** (`01_Working_FoldSeek_Search.py`).
  - It resolves the query to a structure file.
  - It normalises the archive name.
  - It polls the search ticket at most ten times.
  - It keeps the "uncharacterized protein" lines of the result tables, with the AlphaFold accession each mentions.
  - The first accession becomes the seed of the next stage.
- **The local search** (`fasta_to_foldseek.py`).
  - It loads the three accession lists.
  - It picks the databases named by `.dbtype` files.
  - It extracts each hit's query id.
  - It appends every hit to `all_hits`, and to each group list whose set holds the query id.
- **The best-hit download** (`download.py`).
  - The chain is: e-value filter, bitscore sort, first row per query, `AF-` targets only.
  - It records which AlphaFold models are present or fetched.
- **The differential-expression groups** (`preprocessing_FoldSeek_input.py`).
  - These are the significant, up and down masks.
  - Each is followed by an order-preserving `unique()` and written one accession per line.
- **The summary join** (`summarize.py`).
  - It builds the category sets.
  - It parses the structure file names back to targets.
  - It keeps rows with at least twelve fields whose target is on disk.
  - It categorises by precedence and sorts by bitscore.
- **The top-N download** (`download_top_hits_structures.py`).
  - It uses a stable sort and a `top_n` slice.
  - It resolves AlphaFold, PDB and unknown targets to URLs.
  - It numbers the file names.
- **The FASTA splitter** (`filter.py`).
  - A buffer-and-flag state machine sends each record to the characterized or the uncharacterized file.

Modules:

| module | file | models |
|---|---|---|
| `Wrappers` | wrappers.dfy | `Option`, `Result` and `OptionToSeq` |
| `Text` | text.dfy | Python's `str` operations as the scripts use them |
| `Sorting` | sorting.dfy | a descending sort by a real key: sorted, a permutation, and stable |
| `FoldseekSearch` | foldseek_search.dfy | `01_Working_FoldSeek_Search.py` |
| `FastaToFoldseek` | fasta_to_foldseek.dfy | `fasta_to_foldseek.py` |
| `Download` | download.dfy | `download.py` |
| `Preprocessing` | preprocessing.dfy | `preprocessing_FoldSeek_input.py` |
| `Summarize` | summarize.dfy | `summarize.py` |
| `TopHits` | top_hits.dfy | `download_top_hits_structures.py` |
| `FastaFilter` | fasta_filter.dfy | `filter.py` |

What comes from outside the scripts is a parameter:

- HTTP replies: mapping replies, status codes, poll statuses and submission tickets.
- The files present on disk.
- Directory listings and file contents, as sequences of names and lines.
- The typed alignment mode.
- Number parsing, as a `score: string -> real` function where text is turned into floats.

Where a script loops and appends, including the `pd.concat` loop of `download.py`, the model is a method with a loop. That loop is proved equal to a recursive specification function, and the properties are lemmas about that function.

Python's string operations are modelled as follows:

- **`strip()`** removes the code points for which Python's `str.isspace` holds.
- **`split(c)`** is `Text.Split`. It is proved to be the inverse of `Join` on fields free of `c`.
- **`split(c, 1)`** is `Text.SplitOnce`.
- **`replace(p, "")`** is `Text.RemoveAll`.
- **`'{:02d}'`** is `Text.Pad2`.
- **Writing then iterating over a text file** is `Text.WriteLines` and `Text.ReadLines`.

Points of the code's behaviour worth noting:

- Polling has no timeout state. After ten non-terminal statuses the archive is downloaded anyway (`FoldseekSearch.ExhaustedPollingProceeds`).
- A submission reply whose `id` is the empty string is accepted as a ticket: the code only tests that `id` is present.
- The two download scripts are modelled separately, with their own column use. They are not one configurable component.

## Model

| member | source | states |
|---|---|---|
| FoldseekSearch.StructureId | scripts/01_Working_FoldSeek_Search.py:18-29 | an id of at most four characters is used as is; longer ids go through the mapping reply |
| FoldseekSearch.DownloadPdb | scripts/01_Working_FoldSeek_Search.py:31-41 | a successful download names a `.pdb` file |
| FoldseekSearch.ResolveInput | scripts/01_Working_FoldSeek_Search.py:83-88 | a `.pdb` input succeeds exactly when the file exists, and is used unchanged; every success names a `.pdb` file |
| FoldseekSearch.ShortIdSkipsMapping | scripts/01_Working_FoldSeek_Search.py:18-41 | a short non-`.pdb` id never depends on the mapping reply; it is fetched as `<id>.pdb`, or the download fails |
| FoldseekSearch.LongIdUsesFirstEntry | scripts/01_Working_FoldSeek_Search.py:18-29 | a long id succeeds exactly on status 200 with a non-empty entry list and a successful download, using the first entry's PDB id; a missing or empty entry list is fatal |
| FoldseekSearch.ResolutionExamples | scripts/01_Working_FoldSeek_Search.py:16-41 | `1ABC` is fetched directly, `Q9Y6K9` through its first mapped entry, and an empty mapping is fatal |
| FoldseekSearch.NormalizeOutput | scripts/01_Working_FoldSeek_Search.py:91-92 | the result ends with `.tar.gz`, starts with the input, and equals an input that already ends so |
| FoldseekSearch.NormalizeOutputIdempotent | scripts/01_Working_FoldSeek_Search.py:91-92 | normalising twice is normalising once |
| FoldseekSearch.ChooseMode | scripts/01_Working_FoldSeek_Search.py:99 | the mode is never empty, and is the typed text when that is not empty |
| FoldseekSearch.PollFrom | scripts/01_Working_FoldSeek_Search.py:111-117 | at most ten queries; it stops at the first COMPLETE or ERROR and reports which; exhausting the polls means ten non-terminal statuses; one sleep after each non-terminal status |
| FoldseekSearch.Poll | scripts/01_Working_FoldSeek_Search.py:111-117 | the `for`/`break` loop computes exactly the polling outcome of the status sequence |
| FoldseekSearch.ExhaustedPollingProceeds | scripts/01_Working_FoldSeek_Search.py:111-120 | ten non-terminal statuses give the exhausted outcome, with no error |
| FoldseekSearch.MatchUnique | scripts/01_Working_FoldSeek_Search.py:58 | at a given position the pattern `AF-([A-Z0-9]+)-` has at most one group |
| FoldseekSearch.RunLength | scripts/01_Working_FoldSeek_Search.py:58 | the greedy `[A-Z0-9]+` run is maximal: every character in it matches and the next does not |
| FoldseekSearch.MatchAtIndex | scripts/01_Working_FoldSeek_Search.py:58 | a reported group matches at that position, and no group matches when none is reported |
| FoldseekSearch.SearchFrom | scripts/01_Working_FoldSeek_Search.py:58-60 | the result is the group of the leftmost match, and nothing when no position matches |
| FoldseekSearch.FindAccession | scripts/01_Working_FoldSeek_Search.py:58-60 | no accession exactly when the pattern matches nowhere in the line |
| FoldseekSearch.FindAccessionLeftmost | scripts/01_Working_FoldSeek_Search.py:58-60 | the group of the leftmost match is the accession found |
| FoldseekSearch.AlphaFoldAccession | scripts/01_Working_FoldSeek_Search.py:57-58 | a target `AF-<accession>-...` (upper-case letters and digits) yields its accession, e.g. `A0A0E9XQA6` from `AF-A0A0E9XQA6-F1-model_v4` |
| FoldseekSearch.IsResultTable | scripts/01_Working_FoldSeek_Search.py:51 | an archive file is searched exactly when its name ends with `.m8` |
| FoldseekSearch.MentionsUncharacterized | scripts/01_Working_FoldSeek_Search.py:55 | a line is kept exactly when its lower-case form contains "uncharacterized protein" |
| FoldseekSearch.ScannedLines | scripts/01_Working_FoldSeek_Search.py:49-54 | the lines of the `.m8` files in walk order; other files contribute nothing |
| FoldseekSearch.FilteredHits | scripts/01_Working_FoldSeek_Search.py:54-56 | the kept lines, stripped, in reading order (pinned by MentioningLineKept and KeptLineMentions) |
| FoldseekSearch.Accessions | scripts/01_Working_FoldSeek_Search.py:54-60 | the AlphaFold accession of each kept line that has one, in reading order, duplicates kept |
| FoldseekSearch.FilteredHitsAppend | scripts/01_Working_FoldSeek_Search.py:49-60 | scanning two tables in turn keeps the first table's hits and accessions followed by the second's |
| FoldseekSearch.MentioningLineKept | scripts/01_Working_FoldSeek_Search.py:54-56 | every line whose lower-case form contains "uncharacterized protein" is kept, stripped |
| FoldseekSearch.KeptLineMentions | scripts/01_Working_FoldSeek_Search.py:54-56 | every kept entry is the stripped form of such a line |
| FoldseekSearch.AccessionsBounded | scripts/01_Working_FoldSeek_Search.py:55-60 | there are never more accessions than kept lines |
| FoldseekSearch.AccessionsFromKeptLines | scripts/01_Working_FoldSeek_Search.py:55-60 | every accession is the regex group of a kept line |
| FoldseekSearch.ScanStep | scripts/01_Working_FoldSeek_Search.py:54-60 | reading one more line adds its stripped text when it mentions the phrase, and its accession when it also has one |
| FoldseekSearch.ScanLine | scripts/01_Working_FoldSeek_Search.py:55-60 | the loop body appends exactly what the line contributes to each list |
| FoldseekSearch.ScanTable | scripts/01_Working_FoldSeek_Search.py:53-60 | the line loop appends the table's kept lines and accessions, in order |
| FoldseekSearch.ExtractUncharacterized | scripts/01_Working_FoldSeek_Search.py:49-60 | the nested loops give the kept lines and the accessions of the `.m8` files, in archive order |
| FoldseekSearch.Seed | scripts/01_Working_FoldSeek_Search.py:70-76 | a seed exists exactly when there are accessions, and it is the first one |
| FoldseekSearch.Run | scripts/01_Working_FoldSeek_Search.py:78-127 | each fatal condition, in order, gives its error; otherwise the payload uses all six databases and the chosen mode, and the results are those of the downloaded archive |
| FastaToFoldseek.LoadAccessions | scripts/fasta_to_foldseek.py:24-30 | the set of stripped lines of an existing file, empty for a missing one |
| FastaToFoldseek.LoadWrittenAccessions | scripts/fasta_to_foldseek.py:24-30 | a list written one stripped accession per line loads back as the set of its accessions |
| FastaToFoldseek.DatabaseName | scripts/fasta_to_foldseek.py:56-58 | a name exactly for `.dbtype` files that do not start with the query database's name |
| FastaToFoldseek.DatabaseNameOf | scripts/fasta_to_foldseek.py:57-58 | `<name>.dbtype` gives back `<name>` |
| FastaToFoldseek.OwnDatabaseSkipped | scripts/fasta_to_foldseek.py:57 | the query database's own `.dbtype` file is not searched |
| FastaToFoldseek.QueryId | scripts/fasta_to_foldseek.py:72 | the first tab field, or, when that field holds a `|`, the text between its first and second `|` (tied to `split` by QueryIdBySplit) |
| FastaToFoldseek.QueryIdBySplit | scripts/fasta_to_foldseek.py:72 | the query id is the first tab field, or its second `|` field when it holds a `|` |
| FastaToFoldseek.QueryIdPlain | scripts/fasta_to_foldseek.py:72 | a plain first field is the query id |
| FastaToFoldseek.QueryIdPiped | scripts/fasta_to_foldseek.py:72 | a `db|ACC|...` first field gives `ACC` |
| FastaToFoldseek.SearchedLines | scripts/fasta_to_foldseek.py:56-70 | the lines of the searched databases' result files, in listing order; a database without a result file contributes nothing |
| FastaToFoldseek.AllHits | scripts/fasta_to_foldseek.py:71 | every line read, stripped, in order |
| FastaToFoldseek.Hits | scripts/fasta_to_foldseek.py:73-78 | the stripped lines whose query id is in the group, in order |
| FastaToFoldseek.ClassifiedOne | scripts/fasta_to_foldseek.py:71-78 | one line goes, stripped, to `all_hits`, and to each list whose set holds its query id, tested independently |
| FastaToFoldseek.ClassifiedAppend | scripts/fasta_to_foldseek.py:69-78 | reading more lines extends each of the four lists |
| FastaToFoldseek.ClassifyLine | scripts/fasta_to_foldseek.py:71-78 | the loop body appends what the line contributes to each list |
| FastaToFoldseek.ClassifyFile | scripts/fasta_to_foldseek.py:69-78 | the line loop appends the file's contribution to each list |
| FastaToFoldseek.ClassifyHits | scripts/fasta_to_foldseek.py:56-78 | the whole loop gives the four lists of the lines of the searched databases' result files |
| FastaToFoldseek.AllHitsLength | scripts/fasta_to_foldseek.py:71 | `all_hits` holds every line, stripped, in order |
| FastaToFoldseek.HitsSubsequence | scripts/fasta_to_foldseek.py:71-78 | each group list is a subsequence of `all_hits` |
| FastaToFoldseek.MemberLineListed | scripts/fasta_to_foldseek.py:73-78 | a line whose query id is in a group is in that group's list |
| FastaToFoldseek.ListedLineMember | scripts/fasta_to_foldseek.py:73-78 | every entry of a group's list comes from a line whose query id is in the group |
| FastaToFoldseek.HitsMonotone | scripts/fasta_to_foldseek.py:73-78 | a smaller group set gives a subsequence of the larger set's list, so one line can be in several lists |
| Download.Basename | scripts/download.py:55 | the base name is the suffix of the path after its last `/` |
| Download.BasenameOf | scripts/download.py:55 | the base name of `dir/name` is `name` |
| Download.ResultTablesTagged | scripts/download.py:14-18 | rows of each of the three result tables are tagged with that table's file name, e.g. `results_afdb50.m8` |
| Download.Tagged | scripts/download.py:55 | every row of a table is kept and tagged with the table's base name |
| Download.LoadHits | scripts/download.py:52-56 | the rows of each table tagged with its base name, concatenated in loading order |
| Download.LoadAll | scripts/download.py:52-56 | the `pd.concat` loop builds exactly the loaded hits |
| Download.LoadTable | scripts/download.py:54-56 | one pass of the loop: the table, tagged, is concatenated onto the hits of the tables before it |
| Download.LastTableHit | scripts/download.py:52-56 | the hits after those of the earlier tables are rows of the last table, tagged with its base name |
| Download.LoadedHitSource | scripts/download.py:52-56 | every loaded hit is a row of some table, tagged with that table's base name |
| Download.ConfidentHits | scripts/download.py:61-62 | the loaded hits whose e-value is below 1e-2, in order |
| Download.ConfidentHitsMembers | scripts/download.py:61-62 | a hit survives the filter exactly when it was loaded and its e-value is below 1e-2 |
| Download.KeepFirstPerQuery | scripts/download.py:69 | each row whose query has no earlier row, in order |
| Download.KeptRowIsFirst | scripts/download.py:69 | every deduplicated row is the first row of the sorted table for its query |
| Download.EveryQueryKept | scripts/download.py:69 | a query keeps a row exactly when it has one |
| Download.DistinctQueries | scripts/download.py:69 | after deduplication there is at most one row per query |
| Download.AlphaFoldOnly | scripts/download.py:74 | the rows whose target starts with `AF-`, in order |
| Download.AlphaFoldOnlyMembers | scripts/download.py:74 | a row survives the `AF-` filter exactly when it was present and its target starts with `AF-` |
| Download.Chosen | scripts/download.py:66-74 | for a bitscore ordering of the confident hits, the `AF-` rows among the first row of each query |
| Download.BestHits | scripts/download.py:61-74 | no two rows share a query; each row is a loaded AlphaFold hit below the e-value cutoff with the highest bitscore among its query's confident hits; an AlphaFold hit that strictly beats the other confident hits of its query has its row |
| Download.ChosenIsBest | scripts/download.py:61-74 | for any descending ordering, each chosen row is a confident `AF-` hit with the maximum bitscore among its query's confident hits |
| Download.ChosenDistinct | scripts/download.py:69-74 | at most one chosen row per query |
| Download.AlphaFoldSubsequence | scripts/download.py:74 | the `AF-` filter keeps rows in their order |
| Download.ChosenComplete | scripts/download.py:69-74 | for any ordering, the first row of a query is chosen whenever its target is `AF-` |
| Download.StrictBestChosen | scripts/download.py:66-74 | for any descending ordering, a confident `AF-` hit whose bitscore beats every other confident hit of its query is chosen |
| Download.NonAlphaFoldBestDropped | scripts/download.py:69-74 | a query whose best row is not an `AF-` target has no chosen row, whatever its other hits |
| Download.RecordOf | scripts/download.py:88 | the record `(query, target, evalue, bitscore, source_db)` of a row |
| Download.OutputPath | scripts/download.py:83 | the file `top_hit_structures/<model>.pdb` |
| Download.ModelUrl | scripts/download.py:92 | the URL `https://alphafold.ebi.ac.uk/files/<model>.pdb` |
| Download.DownloadStep | scripts/download.py:82-104 | one call never removes a file |
| Download.DownloadsFrom | scripts/download.py:106-115 | the state after one download step per chosen row, in row order |
| Download.RowSucceeded | scripts/download.py:86-100 | a row succeeds when its file was on disk at its turn, or its request got status 200 |
| Download.DownloadsRecordRows | scripts/download.py:86-115 | the loop only appends, at most one record per row, and each new record is that of a row that succeeded: a row whose file was absent and whose request failed adds nothing |
| Download.RowRecorded | scripts/download.py:82-115 | conversely, a row that succeeded is recorded |
| Download.FetchedOrPresentRecorded | scripts/download.py:82-115 | a row fetched with status 200, or whose file was on disk from the start, is recorded |
| Download.AllFetched | scripts/download.py:94-100 | when every request succeeds, every row is recorded, in order |
| Download.NothingFetched | scripts/download.py:86-104 | with no file present and no request succeeding, nothing is recorded or written |
| Download.Downloader.constructor | scripts/download.py:79 | no records yet; the folder holds the existing files |
| Download.Downloader.DownloadModel | scripts/download.py:82-104 | a row is recorded when its file exists or the fetch returns 200, and a URL is requested only when the file is absent |
| Download.Downloader.DownloadAll | scripts/download.py:108-115 | the row loop's state is that of the download steps, in row order |
| Preprocessing.NotMissing | scripts/preprocessing_FoldSeek_input.py:45 | all three cells of the row are present |
| Preprocessing.Coerce | scripts/preprocessing_FoldSeek_input.py:49-50 | a number is kept; text that is not a number becomes missing |
| Preprocessing.IsSignificant | scripts/preprocessing_FoldSeek_input.py:57 | the coerced p value is below 0.05 |
| Preprocessing.IsUp | scripts/preprocessing_FoldSeek_input.py:62 | significant, and the coerced log2 ratio is above 1 |
| Preprocessing.IsDown | scripts/preprocessing_FoldSeek_input.py:67 | significant, and the coerced log2 ratio is below -1 |
| Preprocessing.InGroup | scripts/preprocessing_FoldSeek_input.py:45-68 | the row is complete and passes the group's mask |
| Preprocessing.GroupAccessions | scripts/preprocessing_FoldSeek_input.py:57-68 | the accessions of the rows in the group, in row order, duplicates kept |
| Preprocessing.GroupAccessionsMembers | scripts/preprocessing_FoldSeek_input.py:45-68 | an accession is selected exactly when a complete row with it passes the group's mask |
| Preprocessing.Unique | scripts/preprocessing_FoldSeek_input.py:58 | the first occurrence of each value, in order |
| Preprocessing.UniqueMembers | scripts/preprocessing_FoldSeek_input.py:58 | `unique()` keeps exactly the values present |
| Preprocessing.UniqueDistinct | scripts/preprocessing_FoldSeek_input.py:58 | `unique()` lists no value twice |
| Preprocessing.UniqueOrder | scripts/preprocessing_FoldSeek_input.py:58 | `unique()` lists values in order of first appearance |
| Preprocessing.GroupList | scripts/preprocessing_FoldSeek_input.py:57-68 | the unique accessions of the group's rows |
| Preprocessing.GroupListMembers | scripts/preprocessing_FoldSeek_input.py:57-68 | a group lists an accession exactly when a complete row with it passes the group's thresholds |
| Preprocessing.DirectedAreSignificant | scripts/preprocessing_FoldSeek_input.py:57-68 | every up and every down accession is significant |
| Preprocessing.UpDownExclusive | scripts/preprocessing_FoldSeek_input.py:62-68 | no row is both up and down |
| Preprocessing.NonNumericExcluded | scripts/preprocessing_FoldSeek_input.py:49-50 | a p value that fails numeric coercion puts its row in no group |
| Preprocessing.SavedList | scripts/preprocessing_FoldSeek_input.py:72-75 | the text written: each accession stripped, one per line |
| Preprocessing.SavedListLoads | scripts/preprocessing_FoldSeek_input.py:72-75 | a saved list reads back as the set of its stripped accessions |
| Preprocessing.SavedGroupsNested | scripts/preprocessing_FoldSeek_input.py:57-75 | the saved up and down sets are inside the saved significant set |
| Summarize.CategorySet | scripts/summarize.py:12-19 | the set of first tab fields of the non-blank lines |
| Summarize.Categorise | scripts/summarize.py:43-48 | Upregulated, then Downregulated, then Significant, then Uncategorized, by first membership |
| Summarize.StructureTarget | scripts/summarize.py:23-28 | a target exactly for `.pdb` names that hold a `_` |
| Summarize.DownloadedTargets | scripts/summarize.py:22-28 | the set of the targets of the listing's structure file names |
| Summarize.TargetDetected | scripts/summarize.py:22-28 | every structure file name's target is detected |
| Summarize.DetectedTarget | scripts/summarize.py:22-28 | every detected target comes from a structure file name |
| Summarize.DetectDownloaded | scripts/summarize.py:22-28 | the loop builds exactly the set of the listing's targets |
| Summarize.LineHit | scripts/summarize.py:39-54 | the hit of a line with at least twelve stripped tab fields whose target was downloaded; none otherwise |
| Summarize.LineHitOfFields | scripts/summarize.py:39-54 | a line of at least twelve fields with a downloaded target gives a hit of fields 0, 1 and 11, categorised; any other line gives none |
| Summarize.TableHits | scripts/summarize.py:38-54 | the hits of a table's lines, in line order |
| Summarize.CollectedHits | scripts/summarize.py:34-54 | the hits of the `.m8` files, in listing order |
| Summarize.LineHitCollected | scripts/summarize.py:38-54 | every line that gives a hit contributes it |
| Summarize.CollectedHitFromLine | scripts/summarize.py:38-54 | every hit comes from a line, has a downloaded target and its query's category |
| Summarize.ScanLine | scripts/summarize.py:39-54 | the loop body appends the line's hit, if any |
| Summarize.ScanResults | scripts/summarize.py:38-54 | the line loop appends the table's hits in order |
| Summarize.CollectHits | scripts/summarize.py:34-54 | the folder loop collects the hits of the `.m8` files in listing order |
| Summarize.SummaryTable | scripts/summarize.py:59-63 | nothing exactly when there are no hits; otherwise a permutation of the hits by non-increasing bitscore |
| TopHits.ParseRow | scripts/download_top_hits_structures.py:15 | a line stripped and split on tabs |
| TopHits.RowScore | scripts/download_top_hits_structures.py:18 | the sort key `float(x[11])`, through the score parameter; short rows are ruled out before sorting |
| TopHits.FirstShortRow | scripts/download_top_hits_structures.py:18 | the first row too short for field 11, and none exactly when every row has it |
| TopHits.ParsedRows | scripts/download_top_hits_structures.py:15 | every line stripped and split on tabs |
| TopHits.SelectTopHits | scripts/download_top_hits_structures.py:14-19 | an error exactly when some row lacks field 11; otherwise `min(top_n, rows)` rows |
| TopHits.SelectedPrefixOfSorted | scripts/download_top_hits_structures.py:18-19 | the selection is a prefix of a sorted permutation of the rows, in which equal scores keep their input order |
| TopHits.Classify | scripts/download_top_hits_structures.py:29-38 | AlphaFold exactly when the upper-cased id starts with `AF-`; otherwise PDB exactly for four alphanumeric characters |
| TopHits.AlphaFoldIdBySplit | scripts/download_top_hits_structures.py:31 | the AlphaFold id is the second `-` field |
| TopHits.TargetUrl | scripts/download_top_hits_structures.py:28-38 | no URL exactly for unknown targets |
| TopHits.AlphaFoldUrl | scripts/download_top_hits_structures.py:29-32 | `AF-<acc>-F1-model_v4` is fetched from the AlphaFold files of `<acc>` |
| TopHits.RcsbUrl | scripts/download_top_hits_structures.py:33-35 | a four-character alphanumeric id is fetched from the RCSB under its upper-case form |
| TopHits.UnknownUrlExample | scripts/download_top_hits_structures.py:36-38 | `PF00001` is skipped |
| TopHits.StructureFileName | scripts/download_top_hits_structures.py:26 | the name `<i+1, two digits>_<target>.pdb` |
| TopHits.FileNameRoundTrip | scripts/download_top_hits_structures.py:26 | parsing the written file name as the summary does gives the target back, when it holds no `.pdb` |
| TopHits.NameRoundTrip | scripts/summarize.py:24-28 | a `.pdb` name whose prefix holds no `_` reads back as the text after the `_` |
| TopHits.DownloadStep | scripts/download_top_hits_structures.py:28-48 | no request for an unknown target; otherwise its URL is requested, and the file is saved exactly on status 200 |
| TopHits.Requests | scripts/download_top_hits_structures.py:24-42 | the URLs requested, in row order |
| TopHits.SavedFiles | scripts/download_top_hits_structures.py:24-46 | the files saved, in row order |
| TopHits.DownloadRow | scripts/download_top_hits_structures.py:25-48 | one row: an unknown target makes no request; otherwise one request, and a saved file exactly on status 200 |
| TopHits.DownloadTopHits | scripts/download_top_hits_structures.py:24-48 | the loop, with its `continue`, makes exactly the requests and saves exactly the files of the per-row steps |
| TopHits.SavedNamedByIndex | scripts/download_top_hits_structures.py:24-46 | each saved file is named after its own row's index and target, and came from that target's URL after a 200 |
| TopHits.RowSaved | scripts/download_top_hits_structures.py:24-46 | a row with a known target whose request got status 200 has its file saved under its own index |
| TopHits.UnknownSkipped | scripts/download_top_hits_structures.py:36-38 | an unknown target makes no request and saves nothing |
| TopHits.SavedFilesDetected | scripts/download_top_hits_structures.py:26 | every saved file is detected by the summary as its row's target |
| FastaFilter.IsHeader | scripts/filter.py:10 | a line starting with `>` starts a record |
| FastaFilter.IsCharacterized | scripts/filter.py:19 | a header is characterized when its lower-case form lacks "uncharacterized" |
| FastaFilter.Concat | scripts/filter.py:13 | `''.join` of the lines |
| FastaFilter.Flag | scripts/filter.py:7-21 | the flag in force for a line: its latest header's, false before any header |
| FastaFilter.CharacterizedLines | scripts/filter.py:9-27 | the lines routed to the characterized file, in order |
| FastaFilter.UncharacterizedLines | scripts/filter.py:9-27 | the lines routed to the uncharacterized file, in order |
| FastaFilter.HeaderStep | scripts/filter.py:10-19 | a header hands the buffer to the file its flag names, starts a new buffer and sets the flag from its own text, keeping the routing invariant |
| FastaFilter.BodyStep | scripts/filter.py:20-21 | any other line joins the buffer and keeps the flag, keeping the routing invariant |
| FastaFilter.FlushBuffer | scripts/filter.py:11-15 | a non-empty buffer goes to exactly the file the flag names; each file stays the concatenation of its lines |
| FastaFilter.Flush | scripts/filter.py:12-15 | writing a buffer appends its text to the file |
| FastaFilter.SeparateFasta | scripts/filter.py:1-27 | the two files hold the concatenation of the lines routed to each, in input order |
| FastaFilter.Partition | scripts/filter.py:9-27 | every line goes to exactly one of the two files |
| FastaFilter.PreambleUncharacterized | scripts/filter.py:6-27 | lines before any header go to the uncharacterized file |
| FastaFilter.BodyKeepsFlag | scripts/filter.py:20-21 | non-header lines do not change the routing |
| FastaFilter.RecordWhole | scripts/filter.py:10-21 | a record is written whole, after what precedes it, to the file its header selects |
| FastaFilter.FlagFromOwner | scripts/filter.py:19 | a line goes to the characterized file when its latest header does not mention "uncharacterized" in lower case |
| FastaFilter.OwnerOfFlag | scripts/filter.py:19 | a line goes to the characterized file only below a characterized header |
| Text.Strip | scripts/fasta_to_foldseek.py:29 | `strip()` leaves no whitespace at either end |
| Text.StripSpec | scripts/fasta_to_foldseek.py:29 | `strip()` removes exactly the leading and trailing whitespace: the result is a slice of the input and everything outside it is whitespace |
| Text.StripTerminated | scripts/fasta_to_foldseek.py:29 | stripping a written line read back removes its terminator |
| Text.Split | scripts/summarize.py:13 | at least one field, no field holds the separator, and joining the fields gives the string back |
| Text.SplitJoin | scripts/summarize.py:39 | splitting joined separator-free fields gives the fields back |
| Text.SplitOnce | scripts/summarize.py:25 | two parts exactly when the separator occurs, around its first occurrence |
| Text.RemoveAllAppended | scripts/summarize.py:27 | removing every `.pdb` from `<target>.pdb` gives the target, when it holds no `.pdb` |
| Text.Pad2 | scripts/download_top_hits_structures.py:26 | at least two digits denoting the number, so no `_` |
| Text.ReadWrittenLines | scripts/fasta_to_foldseek.py:81-85 | lines written one per line read back in order, each with its terminator |
| Sorting.InsertSpec | scripts/download_top_hits_structures.py:18 | inserting into a sorted sequence keeps it sorted and adds exactly the item |
| Sorting.SortDesc | scripts/download_top_hits_structures.py:18 | non-increasing keys, a permutation of the input |
| Sorting.SortDescStable | scripts/download_top_hits_structures.py:18 | items with equal keys keep their input order |

## Left out

- HTTP traffic to RCSB, EBI, Foldseek and AlphaFold is not modelled. Replies are parameters: status codes, mapping entries, poll statuses, tickets and archives.
- File reading and writing, `tarfile`, `tempfile`, `os.walk` and `os.listdir` are not modelled. Listings and file contents are given sequences, in whatever order the system yields them.
- The `foldseek createdb` and `easy-search` shell commands are not modelled. The result files they leave are a map from database name to lines.
- Sleeping is counted (`PollOutcome.sleeps`), not timed: the 30-second wait between polls is left out.
- The `input()` prompts are parameters, and `sys.exit` is an error result.
- Printed messages and the summary CSV files written by `download.py` and `summarize.py` are not modelled.
- `scripts/download_fasta_from_uniprot.py` is not part of this model. It is a network fetch loop whose only logic is skipping blank lines.
- pandas and Excel reading are not modelled. Rows are records already parsed, with missing cells as `None` and non-numeric cells as `NonNumeric`.
- Floating point is modelled as `real`. The cutoffs 0.05, 1, -1 and 1e-2 are exact. Float parsing of text is a `score` parameter, and NaN is not modelled.
- Summarize.LineHit: a `ValueError` from `float(parts[11])` is not modelled, because float parsing is a parameter.
- TopHits.SelectTopHits: a `ValueError` from `float(x[11])` is not modelled. Only the `IndexError` of a short row is an error.
- FoldseekSearch.Run: malformed JSON replies, and a mapping entry without `pdb_id`, are not modelled. The mapping reply is given already decoded.
- TopHits.DownloadTopHits: an exception raised by `requests.get` ends the script and is not modelled. Every request has a status.
- Download.BestHits: pandas' sort is not stable, so the chain is computed with one particular descending ordering. `Download.ChosenIsBest`, `Download.ChosenDistinct`, `Download.ChosenComplete` and `Download.StrictBestChosen` hold for every descending ordering. When a query's top bitscore is shared by several hits, which of them is kept depends on the ordering, so the completeness half is stated only for a strictly best hit.
- `lower()`, `upper()` and `isalnum()` are modelled on ASCII only. Non-ASCII case mapping and non-ASCII letters or digits are left out.
- Lines are read with `\n` terminators only. Universal-newline translation of `\r\n` is left out.
