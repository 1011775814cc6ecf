# Ratios document automation: a Dafny model

This project models the core of a document-intake service for an accounting
practice. The core has five parts:

- **Intake.** A client uploads a document. The endpoint checks its size, then
  its extension. It stores the document under a fresh blob name and schedules
  processing.
- **Processing.** The text is extracted (OCR) and the document is classified
  by a language model. Classification gives a category and a year. The
  document is then routed.
- **Routing.** A folder is looked up in an Azure Table index. The lookup uses
  the client folder id and the RowKey `{year}_{category}`. The document is
  then downloaded once and uploaded once into that folder.
- **Index jobs.** Two batch jobs build the index by crawling a remote drive:
  SharePoint (by path) and OneDrive (by item id). The tree has three levels:
  client, then year, then category.
- **Image conversion.** A standalone image-to-PDF service. It has name
  checks, PDF naming, EXIF rotation and error wrapping.

Every outside call is a parameter of the model or a map: Graph listings,
table writes, blob GETs and PUTs, OCR, the language model, the image
libraries. Time stamps and random hex are parameters too.

Modules, one per file:

| file | module | models |
|---|---|---|
| common.dfy | `Common` | `Option`/`Result`, bytes, ASCII lower-casing, `strip`, decimal rendering |
| drive.dfy | `Drive` | drive items and listings, the first-match search, the year-folder filter |
| table.dfy | `TableStore` | the Azure Table: merge-upsert, batches, and the first-match query order |
| sharepoint_sync.dfy | `SharePointSync` | `jobs/sharepoint_sync.py`: crawl, upsert, client roster, `main` |
| onedrive_sync.dfy | `OneDriveSync` | `jobs/onedrive_sync.py`: crawl, upsert, `main` |
| classement.dfy | `Classement` | `app/services/classement.py`: the SharePoint router |
| legacy_classement.dfy | `LegacyClassement` | `app/classement.py`: the earlier OneDrive router |
| document_processor.dfy | `DocumentProcessor` | `app/services/document_processor.py`: the staged pipeline |
| paths.dfy | `Paths` | the POSIX `pathlib` name, suffix and stem |
| pdf_converter.dfy | `PdfConverter` | `app/services/pdf_converter.py` |
| webhook.dfy | `Webhook` | `app/api/webhook.py` with the limits of `app/core/config.py` |

## Where the code and its design description disagree

This model follows the code in each of these cases:

- **Partition key.** The index is partitioned by the client's display name
  (`PartitionKey = r["client"]`), not by its remote id. The lookup filters
  on the `client_folder_id` property and the RowKey. It ignores the
  partition, and when several entities match it takes the first one, in
  PartitionKey order (`Classement.PartitionIgnored`,
  `Classement.StaleEntityStillRoutes`).
- **No vocabulary check.** The classifier's answer is never checked against
  the crawler's categories. The two vocabularies share only
  "02 - Débiteurs" and "03 - Banque". Any other answer fails at the routing
  stage, not at classification (`DocumentProcessor.OffVocabularyDocumentStays`).
- **No conflict detection.** A placement PUT replaces any file already at
  its target (`Classement.Transfer`). Only the intake blob upload refuses to
  overwrite.
- **Fallback folder.** The lookup falls back to `folder_id` when
  `folder_path` is missing or empty. The router then uses that id as a path.
- **OneDrive crawl.** The OneDrive job filters by name only. A plain file
  named like a year or a category is crawled like a folder
  (`OneDriveSync.CrawlNamesOnly`).

## Model

| member | source | states |
|---|---|---|
| `Drive.FirstWhere` | jobs/onedrive_sync.py:41-44 | the position of the first item satisfying the test, or none exactly when no item does |
| `Drive.FirstWhereAgree` | jobs/sharepoint_sync.py:58-62 | two searches whose tests agree item by item stop at the same position |
| `Drive.YearNameMatchesPattern` | jobs/sharepoint_sync.py:33 | every four-ASCII-digit name passes the year pattern as written |
| `Drive.YearPatternAcceptsMore` | jobs/sharepoint_sync.py:33 | the pattern as written also passes "2024\n" and full-width digits, which are not four ASCII digits |
| `Drive.ExtraYearNamesUnreachable` | app/services/document_processor.py:19 | a name only the pattern as written accepts is never the rendering of a classified year |
| `Drive.YearNameIsRenderedYear` | jobs/sharepoint_sync.py:105 | the kept year names with no leading zero are exactly the decimal renderings of the years 1000..9999 |
| `TableStore.Merge` | jobs/onedrive_sync.py:97-98 | merge-upsert creates the entity if absent, overwrites the listed properties, keeps the others, and touches no other entity |
| `TableStore.MergeIdempotent` | jobs/onedrive_sync.py:97-98 | merging the same entity twice is merging it once |
| `TableStore.MergeAll` | jobs/sharepoint_sync.py:160-171 | a batch of writes never removes an entity and leaves unwritten keys unchanged |
| `TableStore.CurrentAfter` | jobs/sharepoint_sync.py:160-171 | for any key, present or not, a batch leaves the earlier properties overridden by everything written to it, in order |
| `TableStore.MergeAllPointwise` | jobs/sharepoint_sync.py:160-171 | after a batch, each entity is its earlier properties overridden by everything the batch wrote to it, in order |
| `TableStore.LastWriteWins` | jobs/sharepoint_sync.py:160-171 | when all writes to a key carry the same property names, the entity is its earlier properties overridden by the last write |
| `TableStore.RerunOverrides` | jobs/onedrive_sync.py:89-98 | a second batch of the same shape leaves the table as if only that batch had run |
| `TableStore.WrittenUniform` | jobs/onedrive_sync.py:89-98 | when every write carries the same property names, what a batch wrote to a key has exactly those names, or nothing for a key it never wrote |
| `TableStore.RerunCovers` | jobs/onedrive_sync.py:97-98 | a batch followed by a same-shaped batch covering all its keys leaves the table as the second batch alone |
| `TableStore.QueryFirst` | app/services/classement.py:77-79 | the first page of the filtered query is empty exactly when no entity matches, else it holds the first match in PartitionKey order |
| `TableStore.FirstMatchUnique` | app/services/classement.py:77-79 | the first match of a query is unique |
| `TableStore.OnlyMatchIsFirst` | app/services/classement.py:77-79 | a match that is the only one is the first one |
| `SharePointSync.FindFolder` | jobs/sharepoint_sync.py:58-62 | the name of the first folder whose lower-cased name contains the needle, or none exactly when no item qualifies |
| `SharePointSync.LocateClients` | jobs/sharepoint_sync.py:54-82 | an error when the main or the Business listing raises; nothing when either search finds no folder; else the main folder, the first Business match and the first Clients match joined by '/' |
| `SharePointSync.CategoryRows` | jobs/sharepoint_sync.py:112-134 | a row is produced exactly for each folder whose name is a known category, with its path and id |
| `SharePointSync.YearRows` | jobs/sharepoint_sync.py:98-110 | succeeds exactly when every kept year can be listed; the rows are those of the kept four-digit year folders |
| `SharePointSync.ClientRows` | jobs/sharepoint_sync.py:87-96 | succeeds exactly when every client folder can be listed; the rows are those of each client folder |
| `SharePointSync.Crawl` | jobs/sharepoint_sync.py:54-141 | an error when the main listing fails, no rows when Business or Clients is missing, otherwise only well-formed rows |
| `SharePointSync.CrawlRowsExactly` | jobs/sharepoint_sync.py:85-137 | a row is crawled exactly when it comes from a (client, year, category) triple that passes every filter |
| `SharePointSync.CategoryRowsAppend` | jobs/sharepoint_sync.py:112-134 | the category rows of two listings in a row are the first's rows followed by the second's |
| `SharePointSync.YearRowsAppend` | jobs/sharepoint_sync.py:98-110 | the year rows of two listings in a row: the first failing listing's error, else the first's rows followed by the second's |
| `SharePointSync.YearRowsSingle` | jobs/sharepoint_sync.py:98-110 | one year folder gives its category rows in listing order when it is a kept year, nothing otherwise, and the listing error when its listing raises |
| `SharePointSync.ClientRowsAppend` | jobs/sharepoint_sync.py:87-96 | the client rows of two listings in a row: the first failing listing's error, else the first's rows followed by the second's |
| `SharePointSync.ClientRowsSingle` | jobs/sharepoint_sync.py:87-96 | one client folder gives its year rows in listing order, a plain file nothing, and the listing error when its listing raises |
| `SharePointSync.EntityOf` | jobs/sharepoint_sync.py:160-169 | the entity is keyed (client, `{year}_{category}`) and carries exactly the five properties taken from the row and the clock |
| `SharePointSync.UpsertIndex` | jobs/sharepoint_sync.py:160-171 | other entities untouched, none removed; each written entity keeps its other properties and takes the last row's five, source "sharepoint" |
| `SharePointSync.RerunChangesOnlyTimestamps` | jobs/sharepoint_sync.py:160-171 | running again over the same rows equals the second run alone and changes no property but `updated_utc` |
| `SharePointSync.UpsertIdempotent` | jobs/sharepoint_sync.py:160-171 | re-upserting the same rows at the same times changes nothing |
| `SharePointSync.ClientRoster` | jobs/sharepoint_sync.py:182-193 | one item per client name, in order of first appearance, with the folder id of that name's first row; names distinct and all covered |
| `SharePointSync.RunSync` | jobs/sharepoint_sync.py:232-251 | crawl errors and write failures end the run (earlier writes stay); the roster is sent exactly when something was crawled |
| `OneDriveSync.FindClientsRoot` | jobs/onedrive_sync.py:40-45 | the id of the first root child whose stripped name starts with "01" and whose name contains "Client", none exactly when there is none |
| `OneDriveSync.CategoryRows` | jobs/onedrive_sync.py:63-72 | a row exactly for each child whose name is one of the ten categories |
| `OneDriveSync.YearRows` | jobs/onedrive_sync.py:55-61 | succeeds exactly when every kept year child can be listed; the rows are those of the children named as years |
| `OneDriveSync.ClientRows` | jobs/onedrive_sync.py:49-53 | succeeds exactly when every client child can be listed; the rows are those of every child, folder or not |
| `OneDriveSync.Crawl` | jobs/onedrive_sync.py:32-72 | an error when the root cannot be listed or no clients folder exists, else rows with a four-digit year and a known category |
| `OneDriveSync.CrawlRowsExactly` | jobs/onedrive_sync.py:49-72 | a row is crawled exactly when its client, year and category pass the name filters |
| `OneDriveSync.CategoryRowsAppend` | jobs/onedrive_sync.py:63-72 | the category rows of two listings in a row are the first's rows followed by the second's |
| `OneDriveSync.YearRowsAppend` | jobs/onedrive_sync.py:55-61 | the year rows of two listings in a row: the first failing listing's error, else the first's rows followed by the second's |
| `OneDriveSync.YearRowsSingle` | jobs/onedrive_sync.py:55-61 | one child named as a year gives its category rows in listing order, any other child nothing, and the listing error when its listing raises |
| `OneDriveSync.ClientRowsAppend` | jobs/onedrive_sync.py:49-53 | the client rows of two listings in a row: the first failing listing's error, else the first's rows followed by the second's |
| `OneDriveSync.ClientRowsSingle` | jobs/onedrive_sync.py:49-53 | one child of the clients folder gives its year rows in listing order, or the listing error when its listing raises |
| `OneDriveSync.CrawlNamesOnly` | jobs/onedrive_sync.py:49-72 | two drives differing only in which items are folders crawl alike |
| `OneDriveSync.EntityOf` | jobs/onedrive_sync.py:90-96 | the entity is keyed (client, `{year}#{category}`) and carries exactly the three properties from the row and the clock |
| `OneDriveSync.UpsertRows` | jobs/onedrive_sync.py:89-98 | other entities untouched, none removed; each written entity takes the last row's properties for its key |
| `OneDriveSync.RerunOverrides` | jobs/onedrive_sync.py:89-98 | writing the same rows again equals the second run alone |
| `OneDriveSync.WriteRows` | jobs/onedrive_sync.py:89-98 | succeeds, counting every row, exactly when no write raises; the table gains exactly the keys of the rows written before the failing one, each taking its last such row's properties, and no other entity changes |
| `OneDriveSync.UpsertPrefixThenAll` | jobs/onedrive_sync.py:89-98 | writing some first rows and then all rows leaves the table as writing all rows alone |
| `OneDriveSync.FailedWritesRecovered` | jobs/onedrive_sync.py:89-108 | after a run stopped by a failing write, a run with no failure leaves the table as a clean run from the start would |
| `OneDriveSync.Finish` | jobs/onedrive_sync.py:101-108 | a crawl error leaves the table alone; success exactly when every write succeeds, counting the rows; each crawled key ends with its last row's properties; keys not crawled keep their entities |
| `OneDriveSync.RunSync` | jobs/onedrive_sync.py:101-108 | a crawl failure leaves the table alone; success exactly when the crawl and every write succeed, counting the rows; each crawled key ends with its last row's properties; other entities are kept |
| `OneDriveSync.RerunRecovers` | jobs/onedrive_sync.py:101-108 | rerunning the job after a failed write over the same drive repairs the table to what one clean run gives |
| `OneDriveSync.KeysDisjointFromSharePoint` | jobs/onedrive_sync.py:92 | an entity this job writes never has the key of one the SharePoint job writes |
| `Classement.FolderOf` | app/services/classement.py:82-88 | `folder_path` if it is non-empty, else a non-empty `folder_id`, else nothing |
| `Classement.QueryFolderPath` | app/services/classement.py:62-91 | nothing when no entity matches, else the folder of the first match; never an empty folder |
| `Classement.QueryFolderId` | app/services/classement.py:10-27 | nothing when no entity matches, the first match's `folder_id`, or a KeyError when it lacks one |
| `Classement.Transfer` | app/services/classement.py:30-41 | one GET then, if it succeeds, one PUT of the same bytes; the library changes only at the target, and only on success |
| `Classement.Classer` | app/services/classement.py:44-59 | no call at all when the lookup resolves nothing; otherwise one download and one upload to `<folder>/<filename>` |
| `Classement.OnlyMatchResolves` | app/services/classement.py:77-85 | with a single matching entity the lookup yields that entity's folder |
| `Classement.PartitionIgnored` | app/services/classement.py:71-74 | moving the only matching entity to another partition leaves the lookup unchanged |
| `Classement.StaleEntityStillRoutes` | app/services/classement.py:77-85 | an entity left from an earlier crawl still matches after a sync and wins when its partition sorts first |
| `Classement.CrawledFolderReceives` | app/services/classement.py:44-59 | once the SharePoint job indexed a folder uniquely, a document for it is uploaded to that folder's path |
| `LegacyClassement.Classer` | app/classement.py:55-69 | a KeyError or an empty or absent id raises before any call; otherwise one download and one upload into the folder of that id |
| `LegacyClassement.CurrentResolvesWhereLegacyDoes` | app/classement.py:63-65 | whenever the earlier router finds a folder, the current one finds one too |
| `LegacyClassement.IndexedFolderReceives` | app/classement.py:55-69 | once the OneDrive job indexed a folder uniquely, a document for it is uploaded into that folder |
| `DocumentProcessor.Step` | app/services/document_processor.py:13-28 | each stage moves strictly forward and only appends to the call trace |
| `DocumentProcessor.Run` | app/services/document_processor.py:8-34 | processing always ends, done or failed, extending the trace |
| `DocumentProcessor.Process` | app/services/document_processor.py:8-34 | OCR, then classification, then routing with RowKey `{year}_{category}`; a failing stage ends processing, with no later call |
| `DocumentProcessor.ProcessReadsFirst` | app/services/document_processor.py:13 | processing always starts by reading the document's text from its URL |
| `DocumentProcessor.VocabularyOverlap` | app/services/llm.py:125 | the classifier's categories and the SharePoint crawler's share exactly "02 - Débiteurs" and "03 - Banque" |
| `DocumentProcessor.UpsertKeepsSharePointIndex` | jobs/sharepoint_sync.py:160-171 | the SharePoint job keeps every RowKey in the form year, '_', known category |
| `DocumentProcessor.UnsharedCategoryNeverResolves` | app/services/document_processor.py:19 | a RowKey built from a category the crawler does not index never resolves against such an index |
| `DocumentProcessor.OffVocabularyDocumentStays` | app/services/document_processor.py:17-28 | a document classified "01 - Créanciers" or "04 - Tickets" fails at routing, with no download or upload |
| `Paths.Name` | app/api/webhook.py:27 | the last path component, never containing '/' and never "." |
| `Paths.Segments` | app/api/webhook.py:27 | the '/'-separated pieces of a path: at least one, none holding '/' |
| `Paths.JoinSegments` | app/api/webhook.py:27 | joining the pieces with '/' gives the path back |
| `Paths.NameIsLastProperSegment` | app/api/webhook.py:27 | the name is empty exactly when no piece is other than "" or "."; otherwise it is the last such piece |
| `Paths.NameOfTail` | app/services/pdf_converter.py:157 | appending a plain name to a path ending in a separator gives that name |
| `Paths.NameOfChild` | app/services/pdf_converter.py:157 | a plain file name is its own name, below any directory |
| `Paths.NameIgnoresTrailingSlash` | app/api/webhook.py:27 | a trailing '/' does not change the name |
| `Paths.Suffix` | app/services/pdf_converter.py:178 | empty exactly when the name has no inner last '.', else a '.' and at least one more character, with no further '.' |
| `Paths.Stem` | app/services/pdf_converter.py:158 | the stem followed by the suffix is the name; the stem is empty only for an empty name |
| `Paths.SplitName` | app/services/pdf_converter.py:157-158 | a base followed by a suffix splits back into that stem and that suffix |
| `PdfConverter.FormatOf` | app/services/pdf_converter.py:16-22 | the format whose value is the string, none exactly for the other strings |
| `PdfConverter.IsSupportedImageFormat` | app/services/pdf_converter.py:175-184 | false for an empty name; true exactly when the lower-cased suffix is .jpeg, .jpg, .png, .heic or .heif |
| `PdfConverter.GetImageFormat` | app/services/pdf_converter.py:197-201 | none exactly for unsupported names, else the format the suffix spells |
| `PdfConverter.GeneratePdfName` | app/services/pdf_converter.py:157-158 | a plain name whose suffix is ".pdf" and whose stem is the original's |
| `PdfConverter.PdfNameReplacesExtension` | app/services/pdf_converter.py:157-158 | `dir/base.ext` is named `base.pdf` |
| `PdfConverter.PdfNameIdempotent` | app/services/pdf_converter.py:157-158 | naming the PDF of a PDF changes nothing, for a non-empty name |
| `PdfConverter.RotationFor` | app/services/pdf_converter.py:40-46 | a quarter-turn angle, non-zero exactly for orientations 3, 6 and 8 |
| `PdfConverter.RotationUprights` | app/services/pdf_converter.py:40-46 | for the unmirrored orientations the rotation is the turn the EXIF standard prescribes |
| `PdfConverter.ProcessImageBytesAsWritten` | app/services/pdf_converter.py:68-115 | succeeds exactly when the image opens, is not HEIF without its plugin, and encodes after rotation, with the encoder's output; every failure message starts with the processing prefix |
| `PdfConverter.HeifMessageBuried` | app/services/pdf_converter.py:93-115 | as written, a HEIF image without its plugin never yields the HEIC message itself |
| `PdfConverter.UnrecognisedMessageBuried` | app/services/pdf_converter.py:108-115 | as written, an unidentifiable image never yields the "not recognised" message itself |
| `PdfConverter.ProcessImageBytes` | app/services/pdf_converter.py:68-115 | intended: the HEIC and "not recognised" messages arrive as raised, other failures with one prefix, success is the encoder's output |
| `PdfConverter.AsWrittenPrefixesIntended` | app/services/pdf_converter.py:108-115 | outside the HEIF case, the two versions agree on success and its value and differ by exactly one prefix |
| `PdfConverter.Processed` | app/services/pdf_converter.py:68-115 | under either handling, succeeds exactly when the image opens and encodes cleanly, with the encoder's output |
| `PdfConverter.GeneratePdf` | app/services/pdf_converter.py:121-140 | the PDF library's output, or its failure text under the PDF prefix |
| `PdfConverter.Reraise` | app/services/pdf_converter.py:256-259 | a ConversionError passes unchanged; any other exception becomes one under the unexpected prefix |
| `PdfConverter.ConvertImageToPdf` | app/services/pdf_converter.py:234-259 | empty bytes refused first, then an unsupported name; succeeds exactly when processing and the PDF step succeed, named after the original; processing errors pass through unchanged, so as written they carry the doubled prefix |
| `PdfConverter.UnrecognisedImageAsWritten` | app/services/pdf_converter.py:108-115 | as written, an unidentifiable image fails with the "not recognised" message behind the processing prefix; intended, with the message alone |
| `PdfConverter.HandlingChangesOnlyMessages` | app/services/pdf_converter.py:68-115 | the two handlings succeed alike with the same PDF, and outside the HEIF case an as-written failure is the intended one behind the processing prefix |
| `PdfConverter.GuardsCallNoLibrary` | app/services/pdf_converter.py:234-238 | the two guards refuse alike whatever the libraries would do |
| `PdfConverter.NothingUnexpected` | app/services/pdf_converter.py:256-259 | every failure message is one of the service's own, so the catch-all wrap never fires |
| `Webhook.ReceiveDocument` | app/api/webhook.py:22-47 | 413 over 300 MiB whatever the name, then 400 for other extensions; else stored under a new name, job scheduled, "accepted" answer |
| `Webhook.BlobNameKeepsSuffix` | app/api/webhook.py:27-33 | whatever the client id, the stored name's lower-cased suffix is the checked one |
| `Webhook.BlobNameKeepsExtension` | app/api/webhook.py:27-33 | the stored name is a plain name whose lower-cased suffix is the checked one |
| `Webhook.Serve` | app/api/webhook.py:37-47 | processing runs exactly when the document was accepted |
| `Webhook.ResponseIgnoresProcessing` | app/api/webhook.py:37-47 | the answer is the same whatever processing does, and processing starts by reading the read link built for the new blob name |

## Left out

- Network and storage calls are replaced by maps and function parameters:
  Graph listings, token retrieval, the table client, blob GET and PUT, the
  Graph PUT. A map key that is missing stands for a call that raises. The
  SharePoint service's upload path `folder_path + "/" + filename` is kept.
- OCR and the language model are function parameters. A `None` result is a
  call that raises. Their prompts and JSON shapes are not modelled.
- Decoding, normalising and encoding images (PIL, `pillow_heif`, `img2pdf`)
  are function parameters. The EXIF rotation angle they receive is
  modelled.
- `asyncio` scheduling: every job and request runs sequentially. The
  webhook's background task runs after the answer is formed.
- Time stamps (`updated_utc`) and `uuid4().hex` are parameters.
- SAS link generation is cryptographic and is a parameter. The blob URL is
  a parameter too.
- The MIME type passed to the blob upload is not modelled. It does not
  affect any outcome.
- Configuration loading is not modelled. The SharePoint job
  (jobs/sharepoint_sync.py:18) and the current router
  (app/services/classement.py:18, 70) read `settings.azure_table_name`;
  the SharePoint job also reads `settings.auth_key_supabase` and
  `settings.supabase_url_sync`. `app/core/config.py` defines none of these
  (it has `table_name`), so as written each of those reads raises
  `AttributeError`.
- `Classement.QueryFolderPath`, `Classement.QueryFolderId` and
  `Classement.CrawledFolderReceives` assume the table-name setting
  resolves. As written every lookup raises `AttributeError`, so every
  accepted document ends in the logged failure of
  app/services/document_processor.py:32-34; the model describes the
  routing once that setting exists.
- `Classement.QueryFolderPath` and `Classement.QueryFolderId` treat the
  query filter as exact equality on `client_folder_id` and `RowKey`. The
  code builds the OData filter by interpolating both values without
  escaping quotes (app/services/classement.py:19-22, 71-74;
  app/classement.py:22-25). A client id or category holding a single quote
  makes the query raise or match other entities; the model covers only
  values without a quote. Parsing OData is not modelled.
- `TableStore.Merge` accepts any PartitionKey and RowKey. Azure Table
  storage refuses keys holding `/`, `\`, `#`, `?` or control characters, so
  the OneDrive job's `{year}#{category}` RowKeys (jobs/onedrive_sync.py:92)
  and SharePoint client names holding such characters would be refused by
  the service. `OneDriveSync.UpsertRows`, `OneDriveSync.WriteRows` and
  `LegacyClassement.IndexedFolderReceives` describe tables the service
  would not accept as written.
- The table URLs are not modelled. The earlier router reads
  "ratiostorage" and the OneDrive job writes "storageratios". The model
  treats both as one table.
- Logging, `print` and the table-creation call are not modelled. Their
  exceptions are swallowed.
- `SharePointSync.RunSync`: the report records the roster that was posted.
  Whether the directory call fails is not modelled, because the job only
  logs that failure.
- `SharePointSync.YearRows` keeps a year folder only when its name is four
  ASCII digits (`Drive.IsYearName`). That is the corrected filter of the
  Findings row for jobs/sharepoint_sync.py:33. The code's `re_year.match`
  (jobs/sharepoint_sync.py:105) also keeps names such as "２０２４" or
  "2024\n" (`Drive.YearPatternAsWritten`). It lists such a folder, emits
  its category rows, and fails the whole crawl when that listing raises.
  The model does neither.
- `SharePointSync.Crawl` uses the year filter of `SharePointSync.YearRows`.
  Its four-ASCII-digit year clause holds for the corrected filter only.
- `SharePointSync.CrawlRowsExactly` characterises the crawl with the
  corrected year filter, not the pattern as written.
- `OneDriveSync.YearRows` keeps a year child only when its name is four
  ASCII digits. The code's `re_year.match` (jobs/onedrive_sync.py:56) also
  keeps the extra names `Drive.YearPatternAcceptsMore` exhibits, lists
  them, and emits their category rows.
- `OneDriveSync.Crawl` uses the year filter of `OneDriveSync.YearRows`. Its
  four-digit year clause holds for the corrected filter only.
- `OneDriveSync.CrawlRowsExactly` characterises the crawl with the
  corrected year filter, not the pattern as written.
- `Webhook.ReceiveDocument` takes the read link as a parameter and treats
  it as reading the stored blob at any time. The code signs the link for
  the fixed container "file-automation-ratios" (app/api/webhook.py:37).
  The upload goes to the configured `settings.azure_blob_container`
  (app/services/storage.py:13), whose default is "" (app/core/config.py:18).
  The link also expires 60 seconds after it is made (app/services/storage.py:27, 34),
  and the router downloads it only after OCR and classification
  (app/services/classement.py:57). `Webhook.ResponseIgnoresProcessing` and
  `Classement.CrawledFolderReceives` (which requires the link to be
  readable) describe processing under this assumption.
- `Webhook.ReceiveDocument` shows the suffix in the 400 detail lowered by
  `Common.Lower`, which lowers ASCII letters only. Python's `.lower()`
  (app/api/webhook.py:27, 29) lowers every letter. For "x.ÉPS" the code
  answers "Extension .éps non autorisée" and the model "Extension .ÉPS non
  autorisée". Whether the upload is refused is the same: every allowed
  extension is ASCII.
- `Drive.YearPatternAsWritten`: the Unicode decimal-digit class `\d` is
  listed for a representative set of ranges, not for all of Unicode.
- `Common.Lower` is ASCII lower-casing. For every string this model
  compares after lower-casing, it agrees with Python's `str.lower`. The
  only non-ASCII characters that lower to ASCII letters give 'k' or an 'i'
  followed by a combining dot, and no compared string needs those.
- `Paths.Name`, `Paths.Suffix` and `Paths.Stem` follow POSIX `pathlib` as
  in Python 3.12, where a name ending in '.' has no suffix.
- `PdfConverter.HeifMessageBuried`: the image library is a parameter, so
  the model lets it open a HEIF image while the plugin is missing. Stock
  Pillow does not identify HEIF on its own and fails first with "cannot
  identify image file", so this branch is likely unreachable in practice.
- `PdfConverter.ConvertImageToPdf` is not called anywhere else in the
  code. It is modelled on its own.

## Findings

| source | as written | input that shows it | evidently intended | confidence | as-written member | corrected member |
|---|---|---|---|---|---|---|
| jobs/sharepoint_sync.py:33 | `re.match(r"^\d{4}$", name)` takes `\d` as any Unicode decimal digit and lets `$` match before a final newline | a year folder named "2024\n" or "２０２４" (full-width digits) is crawled | exactly four ASCII digits, which is the only form a classified year renders to | low, not executed | `Drive.YearPatternAcceptsMore` | `Drive.YearNameIsRenderedYear` |
| app/services/pdf_converter.py:108-115 | the outer `except Exception` of `process_image_bytes` also catches the `ConversionError` the inner handler raised, and wraps it again | bytes the image library cannot identify | the "not recognised" message reaches the caller as raised, like `convert_image_to_pdf` lets a `ConversionError` pass | medium, not executed | `PdfConverter.UnrecognisedImageAsWritten` | `PdfConverter.ProcessImageBytes` |
