# PostgresDocumentRag in Dafny

This project models the main code paths of PostgresDocumentRag. The application answers
questions about a folder of resume PDFs by retrieval-augmented generation. It
reads the text out of each PDF, splits it into chunks, embeds each chunk, and
stores chunk and vector in PostgreSQL with pgvector. For each question it finds
the nearest chunks and builds a prompt from them for a chat model.

The model covers these parts of the application:

- **SqlHelper** (`SqlHelper.dfy`): the `embeddings` table as a class whose rows
  the insert, search and delete methods change. The similarity search is the
  SQL statement's meaning: keep the rows of the collection whose similarity
  exceeds the threshold, order them by descending similarity, then take at most
  `limit` of them. The generic `Ranking` module states and proves what that
  ordering and limit promise.
- **DbHelper** (`DbHelper.dfy`): the `resumes` table with its primary key, its
  NOT NULL columns and its `vector(1536)` column.
- **PostgresMemoryStore** (`PostgresMemoryStore.dfy`): the memory store over the
  embeddings table. It covers choosing an id (`Guid.Parse` or a fresh Guid), the
  default `{"text": ...}` metadata, search, upsert and batch upsert, nearest
  matches, and collection deletion and listing. `Guids.dfy` models the Guid text
  form. `Json.dfy` models the metadata serialisation.
- **DocumentTextReader** (`DocumentTextReader.dfy`): how the text of a PDF is
  assembled. Per page, the words that are not blank and hold no NUL are
  trimmed, joined by single spaces and ended with a newline.
- **VectorService** (`VectorService.dfy`): importing resumes as vector-store
  records, retrieving the relevant ones (top 5, score at least 0.75), building
  the prompt, and turning completion failures into messages.
- **EmbeddingsService** (`EmbeddingsService.dfy`): the older import path through
  the memory store, and the memory recall its prompt template configures. The
  semantic memory's `SaveInformationAsync` is modelled as the embedding call
  followed by the store's upsert into the `resumes` collection.
- **Resume** (`Resume.dfy`): the record type and the storage layout its
  attributes declare.
- **Program** (`Program.dfy`): startup followed by the query loop, which ends at
  end of input, a blank line, `exit`, or the first exception that escapes
  `GetResponseAsync`.

`Text.dfy` models the .NET string operations the application relies on. `Seqs.dfy`
holds sequence laws. `Wrappers.dfy` holds the result types.

Some things are parameters of the model, not definitions in it:

- the embedding generator, the chat completion, the query rewrite and the
  vector search; each either returns a value or raises an exception (`Call`);
- the vector similarity (`<=>` in SQL);
- the JSON readers and PostgreSQL's jsonb output function;
- the text chunker;
- the fresh Guids and their hash codes;
- the score formatting;
- console input, a sequence of lines in which `None` stands for a null read.

Two facts about the code shape the model:

- `DbHelper.SearchEmbeddings` (`RagAi/Services/DbHelper.cs:107-150`) queries the
  `embeddings` table, so it is modelled as a search of that table.
- `Program.Run` (`RagAi/Program.cs:22-43`) creates and clears the `resumes`
  table, builds the kernel, imports through `VectorService`, then runs the
  query loop. The memory-store import path in `EmbeddingsService` is not called
  from it.

## Model

| member | source | states |
|---|---|---|
| SqlHelper.VarChar | RagAi/SqlHelper.cs:51 | VARCHAR(100) takes a text exactly when it fits or only spaces lie beyond the 100th character, and then stores it cut to at most 100 characters |
| SqlHelper.InsertCheck | RagAi/SqlHelper.cs:48-56 | an insert is accepted exactly when collection, text and metadata hold no NUL, the collection fits VARCHAR(100), the vector has 1536 components and the metadata parses as jsonb; each refusal names its cause |
| SqlHelper.InsertedRow | RagAi/SqlHelper.cs:74-83 | the stored row has the given document id, text and vector, the collection as VARCHAR(100) stores it, and the metadata as jsonb parsed it |
| SqlHelper.EmbeddingsTable.constructor | RagAi/SqlHelper.cs:40-57 | a freshly created embeddings table holds no rows |
| SqlHelper.EmbeddingsTable.InsertEmbedding | RagAi/SqlHelper.cs:68-87 | an accepted insert appends exactly the stored row; a refused one fails with its cause and leaves the table unchanged |
| SqlHelper.SearchCheck | RagAi/SqlHelper.cs:100-115 | a search fails exactly on a NUL in the collection, a query that is not a 1536-component vector, a row of the collection with another width, or a negative LIMIT; each failure names its cause |
| SqlHelper.MismatchNeedsOtherWidth | RagAi/SqlHelper.cs:103-106 | when every stored vector has 1536 components, `<=>` meets a dimension mismatch exactly for a query of another width against a collection that has rows |
| SqlHelper.EmbeddingsTable.SearchEmbeddings | RagAi/SqlHelper.cs:89-132 | fails exactly when the search check fails, with its error; otherwise the reader loop yields the rows the SQL selects, in order, and the table is not changed |
| SqlHelper.EmbeddingsTable.DeleteEmbeddings | RagAi/SqlHelper.cs:134-144 | the table is emptied and the count of deleted rows is its former size |
| SqlHelper.SearchFiltersRows | RagAi/SqlHelper.cs:102-126 | every search result comes from a stored row of the collection whose similarity exceeds the threshold, with its id's text and its text; its metadata is jsonb's output for the stored value, not the inserted text; the embedding is returned only when asked for |
| SqlHelper.QualifyingRowIsCandidate | RagAi/SqlHelper.cs:105-106 | every row of the collection above the threshold passes the WHERE clause |
| SqlHelper.SearchRanked | RagAi/SqlHelper.cs:105-108 | results are in non-increasing similarity, number min(limit, qualifying rows), and are a top-`limit` selection of the qualifying rows |
| SqlHelper.SearchThresholdMonotone | RagAi/SqlHelper.cs:106-108 | raising the threshold yields a prefix of the results at the lower threshold |
| SqlHelper.SearchAfterDeleteEmpty | RagAi/SqlHelper.cs:139 | after DELETE FROM embeddings every search is empty |
| Ranking.Insert | RagAi/SqlHelper.cs:107 | inserting into the order keeps every element and adds one |
| Ranking.InsertSorted | RagAi/SqlHelper.cs:107 | insertion keeps a descending order descending |
| Ranking.SortDesc | RagAi/SqlHelper.cs:107 | ORDER BY similarity DESC permutes its input |
| Ranking.SortDescSorted | RagAi/SqlHelper.cs:107 | ORDER BY similarity DESC yields non-increasing scores |
| Ranking.SortFilterCommute | RagAi/SqlHelper.cs:105-107 | filtering before or after the stable sort gives the same sequence |
| Ranking.AboveIsPrefix | RagAi/SqlHelper.cs:106-107 | on sorted rows, a score threshold keeps a prefix |
| Ranking.SortedCandidates | RagAi/SqlHelper.cs:105-107 | the qualifying rows come out of the filter already in descending order |
| Ranking.TakeSortedRanked | RagAi/SqlHelper.cs:107-108 | LIMIT over a sorted sequence picks a top-`limit` selection: sorted, a sub-multiset, and no left-out row scores higher than a picked one |
| Ranking.SelectIsRanked | RagAi/SqlHelper.cs:105-108 | WHERE, ORDER BY and LIMIT together yield a top-`limit` selection of the qualifying rows |
| Ranking.SelectKeeps | RagAi/SqlHelper.cs:105-106 | every selected row is stored, in the collection and above the threshold |
| Ranking.RankedFirstIsBest | RagAi/SqlHelper.cs:107-108 | the first row of a top selection scores at least as high as every candidate |
| Ranking.ThresholdMonotone | RagAi/SqlHelper.cs:106-108 | a higher threshold selects a prefix of what a lower one selects |
| Ranking.PrefixBeatsRest | RagAi/SqlHelper.cs:107-108 | in a sorted sequence nothing after a cut scores above anything before it |
| Seqs.Filter | RagAi/SqlHelper.cs:105-106 | a filter keeps exactly the elements satisfying the predicate |
| Seqs.FilterMultiset | RagAi/SqlHelper.cs:105-106 | a filter keeps each element satisfying the predicate as often as the input holds it, and no other |
| Seqs.FilterAppend | RagAi/SqlHelper.cs:105-106 | filtering distributes over concatenation |
| Seqs.FilterFilter | RagAi/SqlHelper.cs:105-106 | two successive filters are the filter by their conjunction |
| Seqs.FilterIsSubsequence | RagAi/VectorService.cs:93 | a filter keeps the original order |
| Seqs.Take | RagAi/SqlHelper.cs:108 | LIMIT n keeps the first min(n, length) elements |
| DbHelper.InsertResumeCheck | RagAi/Services/DbHelper.cs:49-55 | an insert is accepted exactly when the id fits BIGINT, file name and content are present, no text holds a NUL, the vector has 1536 components and the key is new; each failure names its cause |
| DbHelper.ResumesTable.constructor | RagAi/Services/DbHelper.cs:41-55 | the created table is empty and meets its constraints |
| DbHelper.ResumesTable.InsertResume | RagAi/Services/DbHelper.cs:84-103 | an accepted insert appends the row with missing tags stored as an empty array; a rejected one changes nothing; the constraints are kept |
| DbHelper.UpsertCheck | RagAi/Services/DbHelper.cs:49-55 | the connector's upsert of a record is accepted exactly when file name, content and tags hold no NUL and the vector is present with 1536 components; each refusal names its cause |
| DbHelper.RowOf | RagAi/Models/Resume.cs:7-19 | a record is stored column by column: id, file name, content, tags and vector |
| DbHelper.UpsertedContents | RagAi/VectorService.cs:61-68 | with unique keys, after an upsert the table holds the new row and every old row of another key, and nothing else; the keys stay unique |
| DbHelper.UpsertAllSnoc | RagAi/VectorService.cs:38-40 | upserting records in order upserts each one into the table the earlier ones left |
| DbHelper.UpsertAllAppend | RagAi/VectorService.cs:23-49 | upserting two runs of records one after the other is upserting them together |
| DbHelper.UpsertAllUnique | RagAi/Services/DbHelper.cs:50 | upserts keep the primary key unique |
| DbHelper.UpsertAllLastWins | RagAi/VectorService.cs:58-68 | after upserting records into an empty table, a row is present exactly when it is the row of a record that is the last one with its id |
| DbHelper.ResumesTable.Upsert | RagAi/VectorService.cs:61-68 | an accepted upsert replaces the row with the same id or adds the row; a refused one fails with its cause and changes nothing; the constraints are kept |
| DbHelper.ResumesTable.DeleteResumeEmbeddings | RagAi/Services/DbHelper.cs:152-162 | the table is emptied, the deleted count is its former size, and the constraints still hold |
| DbHelper.DuplicateInsertFails | RagAi/Services/DbHelper.cs:50 | inserting an id a second time is a primary-key violation |
| DbHelper.SearchEmbeddings | RagAi/Services/DbHelper.cs:107-150 | fails exactly when the search check of the embeddings table fails, with its error; otherwise returns that table's ranked search rows |
| Guids.Format | RagAi/SqlHelper.cs:122 | a Guid's text form has 36 characters, with hyphens at positions 8, 13, 18 and 23 |
| Guids.Parse | RagAi/PostgresMemoryStore.cs:21 | a string that is not a Guid fails with a format error |
| Guids.ParseHyphenatedOf | RagAi/PostgresMemoryStore.cs:105 | the "D"-form reader yields a Guid exactly from that Guid's hyphenated text of plain digits in either case, without "+" or "0x" group prefixes |
| Guids.ParseDigitsOf | RagAi/PostgresMemoryStore.cs:105 | the "N"-form reader yields a Guid exactly from that Guid's 32 plain digits, in either case, without "+" or "0x" slice prefixes |
| Guids.ParseIsGuidText | RagAi/PostgresMemoryStore.cs:21 | the model's Guid.Parse succeeds with a Guid exactly when the trimmed text is that Guid in the "D", "N", "B" or "P" form, without "+" or "0x" group prefixes |
| Guids.ParseFormat | RagAi/PostgresMemoryStore.cs:21-25 | parsing a Guid's text form gives back that Guid |
| Guids.FormatParseHyphenated | RagAi/PostgresMemoryStore.cs:100-105 | a parsed hyphenated Guid prints back as the input, up to letter case |
| Guids.FormatInjective | RagAi/SqlHelper.cs:122 | distinct Guids have distinct text forms |
| Json.SerializeText | RagAi/PostgresMemoryStore.cs:22 | the default metadata is a one-property `text` object |
| Json.EscapeCharRead | RagAi/PostgresMemoryStore.cs:22 | every character the serializer escapes reads back as itself |
| Json.EscapeRoundTrip | RagAi/PostgresMemoryStore.cs:22 | the escaped text reads back as the original text |
| Json.EscapeHasNoQuote | RagAi/PostgresMemoryStore.cs:22 | the escaped text never ends the JSON string early |
| PostgresMemoryStore.ChooseId | RagAi/PostgresMemoryStore.cs:21 | a missing or empty key takes the fresh Guid; every refused key fails with a format error (which keys parse is Guids.ParseIsGuidText) |
| PostgresMemoryStore.ChooseIdOfGuidText | RagAi/PostgresMemoryStore.cs:21-25 | the id a save returns, given back as the key, selects the same Guid |
| PostgresMemoryStore.StoredMetadata | RagAi/PostgresMemoryStore.cs:22 | given metadata is stored unchanged |
| PostgresMemoryStore.DefaultMetadataHoldsText | RagAi/PostgresMemoryStore.cs:22 | without metadata, the stored JSON is `{"text":"…"}` whose string reads back as the saved text |
| PostgresMemoryStore.ExtractFromMetadata | RagAi/PostgresMemoryStore.cs:64-76 | a string property of a JSON object is returned; every other case yields the empty string |
| PostgresMemoryStore.ToQueryResult | RagAi/PostgresMemoryStore.cs:44-59 | each search row becomes a result with its id, text, metadata, file-name description and relevance, and an embedding only when asked for |
| PostgresMemoryStore.ToMatch | RagAi/PostgresMemoryStore.cs:176-186 | each row becomes a record with its id, text, metadata and file-name description, and the similarity as score; the embedding is empty unless asked for |
| PostgresMemoryStore.BatchId | RagAi/PostgresMemoryStore.cs:100-102 | a record's own id is kept |
| PostgresMemoryStore.BatchIdParses | RagAi/PostgresMemoryStore.cs:100-105 | an id-less record gets a fresh Guid whose text parses back to it |
| PostgresMemoryStore.BatchAttemptCause | RagAi/PostgresMemoryStore.cs:100-109 | a record fails exactly when its id is not a Guid (a format error) or the insert refuses its row (with the insert's error) |
| PostgresMemoryStore.BatchRowOfId | RagAi/PostgresMemoryStore.cs:100-111 | a stored record's row holds its text, its vector and its metadata as jsonb parsed it, under the Guid its yielded id parses to |
| PostgresMemoryStore.BatchRecordWithoutId | RagAi/PostgresMemoryStore.cs:100-109 | a record without an id is refused only by the insert, and otherwise stored under its fresh Guid |
| PostgresMemoryStore.HasCollection | RagAi/PostgresMemoryStore.cs:255 | a collection exists exactly when some row belongs to it |
| PostgresMemoryStore.RemovedCollectionGone | RagAi/PostgresMemoryStore.cs:220 | after deleting a collection it no longer exists |
| PostgresMemoryStore.RemoveCollectionKeepsOthers | RagAi/PostgresMemoryStore.cs:220 | deleting a collection leaves every other collection's rows as they were, in order |
| PostgresMemoryStore.RemoveCollectionKeepsOtherSearches | RagAi/PostgresMemoryStore.cs:220 | deleting a collection does not change any search of another collection |
| PostgresMemoryStore.SearchRemovedCollectionEmpty | RagAi/PostgresMemoryStore.cs:220 | a deleted collection's search is empty |
| PostgresMemoryStore.MemoryStore.constructor | RagAi/PostgresMemoryStore.cs:13-17 | the store works on the given table |
| PostgresMemoryStore.MemoryStore.SaveInformation | RagAi/PostgresMemoryStore.cs:19-26 | a bad key fails and changes nothing; otherwise the row is appended under the chosen id and the id's text is returned, or the insert error is reported and nothing changes |
| PostgresMemoryStore.MemoryStore.Upsert | RagAi/PostgresMemoryStore.cs:78-91 | with an id that parses and an accepted insert, exactly the row of the record's text, vector and metadata is appended under that id and the id's text returned; a bad id or a refused insert fails with its cause and changes nothing |
| PostgresMemoryStore.MemoryStore.UpsertBatch | RagAi/PostgresMemoryStore.cs:93-113 | records are inserted in order, record k under its own id or fresh Guid k; the outcome is the error of the first record that fails (bad id or refused insert), or success; exactly the rows of the records before it are appended and their ids yielded |
| PostgresMemoryStore.MemoryStore.UpsertNext | RagAi/PostgresMemoryStore.cs:98-111 | one batch step appends the record's row when its id parses and the insert accepts it, and otherwise fails with that cause and changes nothing |
| PostgresMemoryStore.MemoryStore.Search | RagAi/PostgresMemoryStore.cs:28-62 | fails exactly when the search check fails (NUL, a vector of the wrong dimension, a negative limit), with its error; otherwise returns one result per ranked search row, in order |
| PostgresMemoryStore.MemoryStore.Get | RagAi/PostgresMemoryStore.cs:115-119 | a lookup by key always finds nothing |
| PostgresMemoryStore.MemoryStore.GetBatch | RagAi/PostgresMemoryStore.cs:121-135 | a batch lookup yields no records |
| PostgresMemoryStore.MemoryStore.GetNearestMatches | RagAi/PostgresMemoryStore.cs:161-188 | fails exactly when the search check fails (NUL, a vector of the wrong dimension, a negative limit), with its error; otherwise returns one match per ranked search row, in order |
| PostgresMemoryStore.MemoryStore.GetNearestMatch | RagAi/PostgresMemoryStore.cs:190-211 | fails exactly when the limit-1 search check fails, with its error; otherwise nothing exactly when no row qualifies, and else the best-ranked row as a match |
| PostgresMemoryStore.NearestMatchIsBest | RagAi/PostgresMemoryStore.cs:197-210 | when some row qualifies, the nearest match exists and scores at least as high as every qualifying row |
| PostgresMemoryStore.MemoryStore.DeleteCollection | RagAi/PostgresMemoryStore.cs:213-224 | fails exactly on a NUL in the name, changing nothing; otherwise exactly the collection's rows are removed |
| PostgresMemoryStore.MemoryStore.DoesCollectionExist | RagAi/PostgresMemoryStore.cs:248-259 | fails exactly on a NUL in the name; otherwise true exactly when some row belongs to the collection |
| PostgresMemoryStore.MemoryStore.GetCollections | RagAi/PostgresMemoryStore.cs:233-246 | lists every collection that has a row, each once, and nothing else |
| DocumentTextReader.PageWordsShape | RagAi/Services/DocumentTextReader.cs:16-18 | every kept word is non-empty, holds no NUL and has no white space at either end |
| DocumentTextReader.PageWordsAvoid | RagAi/Services/DocumentTextReader.cs:16-18 | trimming adds no character to a word |
| DocumentTextReader.PageTextAvoids | RagAi/Services/DocumentTextReader.cs:16-20 | the page line holds no character absent from its words, except the joining space |
| DocumentTextReader.PageTextSplits | RagAi/Services/DocumentTextReader.cs:18-20 | splitting a page line at spaces gives back the kept words |
| DocumentTextReader.PageLines | RagAi/Services/DocumentTextReader.cs:13-22 | one line per page, in page order |
| DocumentTextReader.PdfText | RagAi/Services/DocumentTextReader.cs:13-24 | the text is empty exactly for a PDF without pages, and otherwise ends with a newline |
| DocumentTextReader.PdfTextSnoc | RagAi/Services/DocumentTextReader.cs:20-21 | each page appends its line and a newline |
| DocumentTextReader.ExtractTextFromPdf | RagAi/Services/DocumentTextReader.cs:8-25 | the builder loop produces the document text |
| DocumentTextReader.PdfTextLines | RagAi/Services/DocumentTextReader.cs:13-22 | reading the text line by line gives back exactly the page lines |
| Resume.NewResume | RagAi/Models/Resume.cs:8-20 | a new record has key 0, empty strings, no embedding and no tags |
| Resume.KindOf | RagAi/Models/Resume.cs:7-19 | only Id is the key; the vector has 1536 dimensions with cosine similarity and an HNSW index; only Content is full-text searchable and the other data properties are filterable |
| Resume.PropertyOf | RagAi/Models/Resume.cs:7-19 | a column name maps back only to the property stored under it |
| Resume.StorageNameRoundTrip | RagAi/Models/Resume.cs:7-19 | every property is found again from its column name |
| Resume.StorageNameInjective | RagAi/Models/Resume.cs:7-19 | no two properties share a column |
| VectorService.UpsertRecord | RagAi/VectorService.cs:61-68 | the upserted record carries the hash id, file name, chunk text and its embedding; missing tags become an empty array |
| VectorService.UpsertAttemptCause | RagAi/VectorService.cs:53-68 | one chunk's upsert fails with the embedding call's exception or the table's refusal, and otherwise is the chunk's record with its embedding and hash id |
| VectorService.ImportRunCount | RagAi/VectorService.cs:20-51 | a successful import upserts one record per chunk of every file; a failed one upserts fewer |
| VectorService.ImportRunStopped | RagAi/VectorService.cs:20-51 | once the import has failed, the files after that change nothing: the first exception ends it |
| VectorService.ImportRunAt | RagAi/VectorService.cs:38-68 | the k-th upserted record is keyed by the k-th hash, untagged, embedded from its own content, passes the table's checks, and comes from one of the files |
| VectorService.FileStoredAt | RagAi/VectorService.cs:38-49 | the k-th record a file upserts holds its k-th chunk, keyed by hash number start + k |
| VectorService.ImportedRecordsShape | RagAi/VectorService.cs:38-68 | the same, for every record an import upserts |
| VectorService.GenerateEmbeddingsAndUpsert | RagAi/VectorService.cs:53-77 | embeds the text and upserts the record under the hash id; an embedding exception or a refused upsert fails and changes nothing |
| VectorService.UpsertChunks | RagAi/VectorService.cs:38-49 | the chunk loop upserts the chunks in order up to the first failure, which it returns |
| VectorService.ImportFile | RagAi/VectorService.cs:23-49 | one file: its text is extracted and chunked, then its chunks are upserted up to the first failure |
| VectorService.ImportResumes | RagAi/VectorService.cs:20-51 | the table ends as the upsert of every record the import issues before its first failure, in order; the outcome is that failure, or success |
| VectorService.FilterRelevant | RagAi/VectorService.cs:93 | exactly the hits scoring at least 0.75 are kept, in search order |
| VectorService.FilterRelevantCopies | RagAi/VectorService.cs:93 | each hit scoring at least 0.75 is kept as often as the search returned it, and no other hit is kept |
| VectorService.RetrieveContext | RagAi/VectorService.cs:79-104 | an exception of the rewrite, the embedding or the search is passed on; otherwise the kept results are exactly the hits scoring at least 0.75 of the top-5 search for the rewritten query's embedding, in order |
| VectorService.RetrievedAtMostTop | RagAi/VectorService.cs:89-93 | at most five results come back, each scored at least 0.75 |
| VectorService.RetrievedAllScored | RagAi/VectorService.cs:92-93 | every retrieved result has a score, so the prompt can be built |
| VectorService.Context | RagAi/VectorService.cs:112-123 | the context is empty or ends with a newline |
| VectorService.EntryAppended | RagAi/VectorService.cs:115-122 | each result appends its heading, content, relevance and a blank line |
| VectorService.ConstructPrompt | RagAi/VectorService.cs:106-137 | succeeds exactly when every result has a score, and then returns the prompt over their context; otherwise it fails on the null score |
| VectorService.InstructionAcknowledges | RagAi/VectorService.cs:127 | the instruction ends by asking to acknowledge missing information |
| VectorService.QuestionLayout | RagAi/VectorService.cs:132-135 | the question part is 'QUESTION:', the query verbatim on its own line, then 'ANSWER:' |
| VectorService.ClosingLayout | RagAi/VectorService.cs:130-135 | after the context come the question heading, the query and the answer heading, at fixed offsets |
| VectorService.OpeningLayout | RagAi/VectorService.cs:126-130 | the prompt opens with the instruction, then 'RESUMES:', then the rest |
| VectorService.TemplateLayout | RagAi/VectorService.cs:126-136 | instruction, 'RESUMES:', context, 'QUESTION:', query and 'ANSWER:' sit at their offsets, and the prompt has that total length |
| VectorService.PromptLayout | RagAi/VectorService.cs:126-136 | whatever the context, the prompt holds every section in order, the query verbatim, and ends with 'ANSWER:' |
| VectorService.EmptyPrompt | RagAi/VectorService.cs:126-136 | with no relevant result the prompt still holds instruction, headings and query |
| VectorService.EntryReadsBack | RagAi/VectorService.cs:115-122 | an entry whose fields hold no line break reads back as its four lines |
| VectorService.ContextLines | RagAi/VectorService.cs:112-123 | the context has four lines per result |
| VectorService.ContextReadsBack | RagAi/VectorService.cs:112-123 | for results whose fields hold no line break, reading the context line by line gives back each result's heading, content, relevance and blank line, in order |
| VectorService.Classify | RagAi/VectorService.cs:159-171 | a cancellation is a timeout; any other exception is a rate limit exactly when its message mentions "429" or "rate limit", and is generic otherwise |
| VectorService.FailureLines | RagAi/VectorService.cs:159-171 | each failure kind writes its message; a generic one writes the error text and the hint |
| VectorService.CancellationIsTimeout | RagAi/VectorService.cs:159-167 | the catch order decides: a cancellation that mentions 429 is still reported as a timeout |
| VectorService.ResponseLines | RagAi/VectorService.cs:156-172 | the completion's text is written, or the lines of the message its exception maps to |
| VectorService.Response | RagAi/VectorService.cs:139-173 | a response fails exactly when the retrieval, which runs outside the try, raises, and then with that exception |
| VectorService.AnswerFailureIsText | RagAi/VectorService.cs:145-172 | once the context is retrieved the response succeeds: the completion's text, or the message its exception maps to |
| VectorService.GetResponse | RagAi/VectorService.cs:139-173 | the output is the response: the retrieval's exception escapes, the completion's text or failure message is written otherwise |
| EmbeddingsService.DescriptionInjective | RagAi/EmbeddingsService.cs:47 | chunk descriptions of one file are distinct |
| EmbeddingsService.MetadataHoldsName | RagAi/EmbeddingsService.cs:48 | the file name sits verbatim inside the metadata |
| EmbeddingsService.PlainNameReadsBack | RagAi/EmbeddingsService.cs:48 | a name without quote, backslash or control character is a valid JSON string body that reads back as itself |
| EmbeddingsService.QuotedNameBreaksJson | RagAi/EmbeddingsService.cs:48 | a name holding a quote and no backslash is not a valid JSON string body |
| EmbeddingsService.ChunkSave | RagAi/EmbeddingsService.cs:43-48 | each chunk is saved to 'resumes' under a fresh Guid's text with the file-name metadata |
| EmbeddingsService.SaveAttemptCause | RagAi/EmbeddingsService.cs:43-48 | a save fails with the embedding call's exception or the insert's error, and otherwise stores the chunk's text, vector and jsonb-parsed metadata in 'resumes' under the given Guid |
| EmbeddingsService.ProcessRunCount | RagAi/EmbeddingsService.cs:19-53 | a successful run stores one row per chunk of every file; a failed one stores fewer |
| EmbeddingsService.ProcessRunStopped | RagAi/EmbeddingsService.cs:19-53 | once the run has failed, the files after that add nothing: the first failing save ends it |
| EmbeddingsService.ProcessRunSnoc | RagAi/EmbeddingsService.cs:25-51 | one more file adds the rows of its chunks' saves up to its first failing save |
| EmbeddingsService.ProcessRunAt | RagAi/EmbeddingsService.cs:41-48 | stored row k is what the save of some chunk of some file returned under fresh Guid k |
| EmbeddingsService.ProcessedRows | RagAi/EmbeddingsService.cs:41-48 | every stored row holds one chunk of one of the files, in 'resumes' under the fresh Guid of its position, embedded from its text, with its file's metadata |
| EmbeddingsService.ProcessedIdsDistinct | RagAi/EmbeddingsService.cs:45 | with distinct fresh Guids, no two stored rows share a document id |
| EmbeddingsService.ExtractTextFromPdf | RagAi/EmbeddingsService.cs:126-143 | the copy of the text reader produces the same document text |
| EmbeddingsService.SaveNext | RagAi/EmbeddingsService.cs:43-48 | one save appends the attempt's row, or fails with its error and changes nothing |
| EmbeddingsService.SaveChunks | RagAi/EmbeddingsService.cs:41-51 | the chunk loop saves the chunks in order up to the first failure, which it returns |
| EmbeddingsService.ProcessFile | RagAi/EmbeddingsService.cs:27-51 | one file: its text is extracted and chunked, then its chunks are saved up to the first failure |
| EmbeddingsService.ProcessDocuments | RagAi/EmbeddingsService.cs:19-53 | the store ends with the run's rows appended, and the outcome is the run's: every chunk saved, or the first failing save's error |
| EmbeddingsService.RecallRows | RagAi/EmbeddingsService.cs:62 | the recall's search rows: at most ten, each above 0.75, without vector, each from a stored row of 'resumes' |
| EmbeddingsService.RecallMatches | RagAi/EmbeddingsService.cs:62 | the matches made one per recall search row are at most ten, each above 0.75, without embeddings, each carrying the id of a stored row of 'resumes' |
| EmbeddingsService.NoCollectionNoRecall | RagAi/EmbeddingsService.cs:62 | with no stored row of 'resumes' the recall's search has no rows |
| EmbeddingsService.Recall | RagAi/EmbeddingsService.cs:58-65 | an embedding exception is passed on; with no row of 'resumes' there is no match, whatever the query's dimension; otherwise a failing search (a query of the wrong dimension included) is passed on, and a successful one gives one match per row of the ranked top-10 search of 'resumes' at 0.75, in order: at most ten, each above 0.75, without embeddings, each from a stored row |
| EmbeddingsService.QueryMemoryLines | RagAi/EmbeddingsService.cs:66-86 | the completion text is written, or the failure message of the same catch order as GetResponse |
| Text.Trim | RagAi/Program.cs:33 | the trimmed string is empty exactly for white space, otherwise starts and ends with non-white space, and is the middle of the input |
| Text.TrimPadded | RagAi/Program.cs:33 | trimming removes exactly the white space around a word |
| Text.SplitJoin | RagAi/Services/DocumentTextReader.cs:20 | splitting a join at the separator gives back the words |
| Text.LinesTerminated | RagAi/Services/DocumentTextReader.cs:21 | lines each ended by AppendLine read back as those lines |
| Text.NatToStringRoundTrip | RagAi/EmbeddingsService.cs:47 | a number's decimal text reads back as the number |
| Text.NatToStringInjective | RagAi/EmbeddingsService.cs:47 | distinct numbers print differently |
| Program.ProcessedQueries | RagAi/Program.cs:27-43 | no more queries are processed than lines are read |
| Program.ReadLine | RagAi/Program.cs:30 | the next input line, or null past the end of input |
| Program.NothingAfterExit | RagAi/Program.cs:33-36 | nothing after an exit line is processed |
| Program.BlankLinesExit | RagAi/Program.cs:33 | every empty or white-space line is an exit line, and nothing from it on is processed |
| Program.ExitWordExits | RagAi/Program.cs:33 | 'exit' in any letter case with white space around it ends the loop |
| Program.LongerWordIsQuery | RagAi/Program.cs:33 | every line that is not blank and does not trim to four characters is a query |
| Program.PaddedWordIsQuery | RagAi/Program.cs:33 | a word of any length but four, with white space around it, is a query |
| Program.ProcessedQueriesUnique | RagAi/Program.cs:27-43 | the lines read before the first stop are exactly the processed queries |
| Program.ProcessedQueriesReadUntilExit | RagAi/Program.cs:27-43 | the processed queries are read in order, none is an exit line, and the next read stops the loop |
| Program.ProcessedQueriesPrefix | RagAi/Program.cs:27-43 | lines read in order, none an exit line, are the first processed queries |
| Program.AnswerSteps | RagAi/Program.cs:42 | one answer per query, in order, with the output for that query |
| Program.LoopEndsAtExit | RagAi/Program.cs:32-37 | a loop that answered every query before a stopping read has answered all processed queries and passes |
| Program.LoopEndsAtFailure | RagAi/Program.cs:39-42 | a query whose response raises ends the loop with that error, after the answers to the queries before it |
| Program.QueryLoop | RagAi/Program.cs:27-43 | the loop answers the processed queries in order up to the first whose response raises; it then ends with that error, and otherwise passes after a stopping read |
| Program.Run | RagAi/Program.cs:22-43 | the table is created and cleared, the kernel built and the resumes imported before any query; the table then holds exactly the upsert of the imported records; a failed import ends the run, and otherwise the queries are answered by GetResponseAsync over that table until the first exception or stop |

## Left out

- Database and table creation: `CreateDatabaseIfNotExists`, the connection strings, the indexes and the HNSW parameters. Only the column types and constraints are modelled.
- PDF parsing with PdfPig: a PDF is the sequence of its pages' word texts. A null word text is not representable, and PdfPig's own exceptions are not modelled.
- The text chunker (`TextChunker.SplitPlainTextLines`) is a parameter. The observation that it yields one chunk per file is not modelled.
- The embedding generator, the chat completion, the query rewrite and the connector's vector search are parameters that return a value or raise. The model covers what is done with their results.
- Floating point: similarity is a real-valued parameter function of two vectors. `VectorService.CosineSimilarity` and pgvector's `<=>` arithmetic are not part of this model; only its dimension check is.
- `Guid.NewGuid` and `GetHashCode` are parameters: `nat -> Guid` and `nat -> Int32`.
- The read-back `GetAsync` after each upsert, and its console output.
- `RemoveAsync` and `RemoveBatchAsync` are not modelled: they delete by comparing the table's serial `id` with a Guid, ignoring the collection.
- `CreateCollectionAsync` does nothing, so it has no model.
- The JSON readers (System.Text.Json and PostgreSQL's jsonb input) and jsonb's output function are parameters.
- `BuildKernel` and the Semantic Kernel wiring in both services: dependency injection, configuration, HTTP clients and the vector-store connector's internals.
- EmbeddingsService.ProcessDocuments: the semantic memory's `SaveInformationAsync` is taken as the embedding call followed by the store's upsert. Its existence check and creation of the collection (a no-op here) are omitted, and the chunk description it receives is not stored.
- EmbeddingsService.Recall: models the two memory-store calls that the semantic memory's search makes for the prompt template's `memory.Recall`: the existence check of 'resumes', then the nearest-matches search. The template rendering is not modelled.
- Async execution, cancellation tokens and all console output other than the answer lines. `Console.Write` prompts and progress lines are omitted.
- `Path.GetFullPath`, the `~` expansion and `Directory.GetFiles`: the PDFs are given as a sequence of files in listing order.
- PostgresMemoryStore.MemoryStore.UpsertBatch: models an insert failure as ending the batch with the ids yielded so far, which is where the exception ends the async enumeration.
- SqlHelper.SearchRanked: ties in `ORDER BY similarity DESC` have no fixed order in PostgreSQL. The model uses a stable order and states only the ranking property about it.
- Text.EqualsIgnoreCase: folds ASCII letters only. `OrdinalIgnoreCase` also folds some non-ASCII letters, but none of them folds to a letter of "exit" (dotless i is kept apart from I), so the exit test agrees with .NET's.
- Text.NewLine: `Environment.NewLine`, which `AppendLine` writes, and the line breaks inside the prompt template are taken as "\n". The model assumes Unix line endings.
- Guids.Parse: reads the "D", "N", "B" and "P" forms with plain digit groups only. .NET also accepts the "X" form (`{0x12345678,0x1234,0x1234,{0x12,...}}`) hyphenated groups that start with "+" or "0x" within their width (`+2345678-1234-1234-1234-123456789012`, `0x345678-1234-1234-1234-123456789012`), and "N"-form 8-digit slices that start with "+" or "0x" (`0x3456781234123412341234567890ab`). These fail here with a format error.
- Guids.ParseHyphenatedOf: states the "D" reader for plain digit groups only; the "+" and "0x" group prefixes .NET's compatibility reader accepts are not modelled.
- Guids.ParseDigitsOf: states the "N" reader for 32 plain digits only; .NET also reads each 8-character slice with a leading "+" or "0x", so `0x3456781234123412341234567890ab` is a Guid there and fails here.
- Guids.ParseIsGuidText: its if-and-only-if is about the forms Guids.Parse reads; texts in the "X" form or with "+" or "0x" group prefixes are accepted by .NET but not by the model.
- ChooseId: through Guids.Parse, a key in the "X" form or with "+" or "0x" group prefixes is refused with a format error, where .NET would accept it. SaveInformation, Upsert and BatchAttemptCause inherit this.
- VectorService.Entry: the score is written by a formatting parameter, not by .NET's `double.ToString`.
- `DbHelper.InsertResume`'s `ulong` id is checked against BIGINT's range. Npgsql's own conversion of `ulong` parameters is not modelled.
