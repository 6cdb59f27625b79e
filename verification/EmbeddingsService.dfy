/**
 * The memory-store pipeline: saving every chunk of every PDF file into the
 * 'resumes' memory collection, the recall its prompt template configures, and
 * the message written when the answer fails. The semantic-memory layer between
 * the caller and the store, the chunker and the chat model are parameters.
 */
module EmbeddingsService {
  import opened Wrappers
  import opened Text
  import Seqs
  import Json
  import Guids
  import SqlHelper
  import DocumentTextReader
  import VectorService
  import Store = PostgresMemoryStore

  /** Memory collection every chunk is saved into and recalled from. */
  const MemoryCollection: string := "resumes"

  /** Recall parameters of the prompt template. */
  const RecallLimit: nat := 10
  const RecallRelevance: real := 0.75

  /** One SaveInformationAsync call: collection, id, text, description and additional metadata. */
  datatype SaveRequest = SaveRequest(
    collection: string,
    id: string,
    text: string,
    description: string,
    additionalMetadata: string)

  /** The description of chunk i (counted from 0) of a file split into 'count' chunks. */
  function Description(fileName: string, i: nat, count: nat): string
  {
    "From " + fileName + ", chunk " + NatToString(i + 1) + "/" + NatToString(count)
  }

  /** Different chunks of one file get different descriptions. */
  lemma DescriptionInjective(fileName: string, i: nat, j: nat, count: nat)
    requires Description(fileName, i, count) == Description(fileName, j, count)
    ensures i == j
  {
    var prefix := "From " + fileName + ", chunk ";
    var a, b, c := NatToString(i + 1), NatToString(j + 1), NatToString(count);
    assert Description(fileName, i, count) == prefix + (a + ("/" + c));
    assert Description(fileName, j, count) == prefix + (b + ("/" + c));
    DropCommonPrefix(prefix, a + ("/" + c), b + ("/" + c));
    SplitAtFirst(a, "/" + c, b, "/" + c, '/');
    NatToStringInjective(i + 1, j + 1);
  }

  lemma DropCommonPrefix(p: string, x: string, y: string)
    requires p + x == p + y
    ensures x == y
  {
    assert x == (p + x)[|p|..];
    assert y == (p + y)[|p|..];
  }

  /** Two texts that agree, cut at the first 'sep' of each, agree before it. */
  lemma SplitAtFirst(a: string, x: string, b: string, y: string, sep: char)
    requires sep !in a && sep !in b && x != [] && y != [] && x[0] == sep && y[0] == sep
    requires a + x == b + y
    ensures a == b
  {
    var s := a + x;
    assert s[..|a|] == a && s[|a|] == sep;
    assert s[..|b|] == b && s[|b|] == sep;
    assert IndexOf(s, sep) == |a|;
    assert IndexOf(s, sep) == |b|;
  }

  /** The additional metadata: the file name spliced into a JSON object as it is. */
  function FileNameMetadata(fileName: string): string
  {
    "{ \"fileName\": \"" + fileName + "\" }"
  }

  /** The text between the metadata's quotes is the file name, character for character. */
  lemma MetadataHoldsName(fileName: string)
    ensures VectorService.OccursAt(FileNameMetadata(fileName), fileName, 15)
  {
    VectorService.OccursLast("{ \"fileName\": \"", fileName);
    VectorService.OccursFirst("{ \"fileName\": \"" + fileName, "\" }");
    VectorService.OccursWithin(FileNameMetadata(fileName), "{ \"fileName\": \"" + fileName, 0, fileName, 15);
  }

  /** A name without quotes, backslashes or control characters reads back from the JSON string unchanged. */
  lemma {:induction false} PlainNameReadsBack(fileName: string)
    requires forall i :: 0 <= i < |fileName| ==> fileName[i] != '"' && fileName[i] != '\\' && fileName[i] >= ' '
    ensures Json.Unescape(fileName) == Some(fileName)
  {
    if fileName != [] {
      PlainNameReadsBack(fileName[1..]);
      assert [fileName[0]] + fileName[1..] == fileName;
    }
  }

  /** A name with a quote and no backslash does not read as one JSON string body. */
  lemma {:induction false} QuotedNameBreaksJson(fileName: string)
    requires '"' in fileName && '\\' !in fileName
    ensures Json.Unescape(fileName).None?
  {
    if fileName[0] != '"' {
      QuotedNameBreaksJson(fileName[1..]);
    }
  }

  /** The save of chunk i (of 'count') of a file, under a fresh Guid. */
  function ChunkSave(fileName: string, chunk: string, i: nat, count: nat, guid: Guids.Guid): (r: SaveRequest)
    ensures r.collection == MemoryCollection && r.id == Guids.Format(guid) && r.text == chunk
    ensures r.additionalMetadata == FileNameMetadata(fileName)
  {
    SaveRequest(MemoryCollection, Guids.Format(guid), chunk, Description(fileName, i, count), FileNameMetadata(fileName))
  }

  /**
   * What SaveInformationAsync of the semantic memory does with one chunk of a
   * file whose additional metadata is 'metadataJson': it embeds the text, then
   * upserts the record into the memory store, which inserts it into 'resumes'
   * under the Guid whose text the save carries. An exception of the embedding
   * call is passed on; so is the insert's error.
   */
  function SaveAttempt(jsonb: Json.JsonParser, text: string, metadataJson: string, guid: Guids.Guid,
                       embed: string -> Call<seq<real>>): Result<SqlHelper.EmbeddingRow>
  {
    match embed(text)
    case Raised(e) => Failure(Unhandled(e))
    case Returned(v) =>
      match SqlHelper.InsertCheck(jsonb, MemoryCollection, text, v, metadataJson)
      case Fail(e) => Failure(e)
      case Pass => Success(SqlHelper.InsertedRow(jsonb, guid, MemoryCollection, text, v, metadataJson))
  }

  /** A save fails on the embedding's exception or the insert's error, and otherwise stores its row. */
  lemma SaveAttemptCause(jsonb: Json.JsonParser, text: string, metadataJson: string, guid: Guids.Guid,
                         embed: string -> Call<seq<real>>)
    ensures var r := SaveAttempt(jsonb, text, metadataJson, guid, embed);
            match embed(text)
            case Raised(e) => r == Failure(Unhandled(e))
            case Returned(v) =>
              var check := SqlHelper.InsertCheck(jsonb, MemoryCollection, text, v, metadataJson);
              && (r.Success? <==> check.Pass?)
              && (check.Fail? ==> r == Failure(check.error))
              && (r.Success? ==> && r.value.documentId == guid && r.value.collection == MemoryCollection
                                 && r.value.text == text && r.value.embedding == v
                                 && Some(r.value.metadata) == jsonb(metadataJson))
  {
  }

  /** One save, as a value: the text, the additional metadata and the Guid go in; the stored row or an error comes out. */
  type Saver = (string, string, Guids.Guid) -> Result<SqlHelper.EmbeddingRow>

  /** The saves the semantic memory makes, for the given '::jsonb' cast and embedding call. */
  function Saving(jsonb: Json.JsonParser, embed: string -> Call<seq<real>>): Saver
  {
    (text: string, metadataJson: string, guid: Guids.Guid) => SaveAttempt(jsonb, text, metadataJson, guid, embed)
  }

  /** The saves of one file's chunks, the first one using fresh Guid number 'start'. */
  function FileSaveAttempts(save: Saver, chunks: seq<string>, metadataJson: string,
                            freshGuid: nat -> Guids.Guid, start: nat): (rs: seq<Result<SqlHelper.EmbeddingRow>>)
    ensures |rs| == |chunks|
    ensures forall i :: 0 <= i < |rs| ==> rs[i] == save(chunks[i], metadataJson, freshGuid(start + i))
  {
    seq(|chunks|, i requires 0 <= i < |chunks| => save(chunks[i], metadataJson, freshGuid(start + i)))
  }

  /**
   * What ProcessDocuments does: the outcome, and the rows stored, file by file
   * and chunk by chunk, up to the first failing save, which ends the run.
   * Chunk k of the run draws fresh Guid number k.
   */
  function ProcessRun(save: Saver, files: seq<VectorService.PdfFile>, chunksOf: VectorService.PdfFile -> seq<string>,
                      freshGuid: nat -> Guids.Guid): (r: (Outcome, seq<SqlHelper.EmbeddingRow>))
  {
    if files == [] then (Pass, [])
    else
      var before := ProcessRun(save, files[..|files| - 1], chunksOf, freshGuid);
      if before.0.Fail? then before
      else
        var file := files[|files| - 1];
        var run := FileSaveAttempts(save, chunksOf(file), FileNameMetadata(file.fileName), freshGuid, |before.1|);
        (Through(run), before.1 + Values(run[..FirstFailure(run)]))
  }

  /** A run that succeeds stores one row per chunk; one that fails stops short of the last chunk. */
  lemma {:induction false} ProcessRunCount(save: Saver, files: seq<VectorService.PdfFile>,
                                           chunksOf: VectorService.PdfFile -> seq<string>, freshGuid: nat -> Guids.Guid)
    ensures var r := ProcessRun(save, files, chunksOf, freshGuid);
            && (r.0.Pass? ==> |r.1| == VectorService.TotalChunks(chunksOf, files))
            && (r.0.Fail? ==> |r.1| < VectorService.TotalChunks(chunksOf, files))
  {
    if files != [] {
      ProcessRunCount(save, files[..|files| - 1], chunksOf, freshGuid);
    }
  }

  /** Once the files so far have failed, the run has failed the same way, whatever files follow. */
  lemma {:induction false} ProcessRunStopped(save: Saver, files: seq<VectorService.PdfFile>,
                                             chunksOf: VectorService.PdfFile -> seq<string>,
                                             freshGuid: nat -> Guids.Guid, f: nat)
    requires f <= |files| && ProcessRun(save, files[..f], chunksOf, freshGuid).0.Fail?
    ensures ProcessRun(save, files, chunksOf, freshGuid) == ProcessRun(save, files[..f], chunksOf, freshGuid)
  {
    if f < |files| {
      var n := |files| - 1;
      assert files[..n][..f] == files[..f];
      ProcessRunStopped(save, files[..n], chunksOf, freshGuid, f);
    } else {
      assert files[..f] == files;
    }
  }

  /** The run over one more file: the files before it, then its chunks' saves up to the first failure. */
  lemma ProcessRunSnoc(save: Saver, files: seq<VectorService.PdfFile>, chunksOf: VectorService.PdfFile -> seq<string>,
                       freshGuid: nat -> Guids.Guid, f: nat, stored: seq<SqlHelper.EmbeddingRow>)
    requires f < |files| && ProcessRun(save, files[..f], chunksOf, freshGuid) == (Pass, stored)
    ensures var run := FileSaveAttempts(save, chunksOf(files[f]), FileNameMetadata(files[f].fileName), freshGuid, |stored|);
            var added := Values(run[..FirstFailure(run)]);
            && ProcessRun(save, files[..f + 1], chunksOf, freshGuid) == (Through(run), stored + added)
            && (Through(run).Pass? ==> |added| == |run|)
  {
    assert files[..f + 1][..f] == files[..f];
  }

  /**
   * Stored row number k of a run is what the save of chunk i of file number j
   * returned, under the k-th fresh Guid.
   */
  lemma {:induction false} ProcessRunAt(save: Saver, files: seq<VectorService.PdfFile>,
                                        chunksOf: VectorService.PdfFile -> seq<string>, freshGuid: nat -> Guids.Guid,
                                        k: nat)
    returns (j: nat, i: nat)
    requires k < |ProcessRun(save, files, chunksOf, freshGuid).1|
    ensures j < |files| && i < |chunksOf(files[j])|
    ensures save(chunksOf(files[j])[i], FileNameMetadata(files[j].fileName), freshGuid(k))
            == Success(ProcessRun(save, files, chunksOf, freshGuid).1[k])
  {
    var n := |files| - 1;
    var before := ProcessRun(save, files[..n], chunksOf, freshGuid);
    if k < |before.1| {
      assert ProcessRun(save, files, chunksOf, freshGuid).1[k] == before.1[k];
      j, i := ProcessRunAt(save, files[..n], chunksOf, freshGuid, k);
      assert files[..n][j] == files[j];
    } else {
      j := n;
      i := ProcessRunAtLast(save, files, chunksOf, freshGuid, k);
    }
  }

  /** A stored row past the rows of the files before the last is what a save of the last file's chunks returned. */
  lemma ProcessRunAtLast(save: Saver, files: seq<VectorService.PdfFile>, chunksOf: VectorService.PdfFile -> seq<string>,
                         freshGuid: nat -> Guids.Guid, k: nat)
    returns (i: nat)
    requires files != [] && |ProcessRun(save, files[..|files| - 1], chunksOf, freshGuid).1| <= k
    requires k < |ProcessRun(save, files, chunksOf, freshGuid).1|
    ensures var file := files[|files| - 1];
            && i < |chunksOf(file)|
            && save(chunksOf(file)[i], FileNameMetadata(file.fileName), freshGuid(k))
               == Success(ProcessRun(save, files, chunksOf, freshGuid).1[k])
  {
    var n := |files| - 1;
    var before := ProcessRun(save, files[..n], chunksOf, freshGuid);
    var run := FileSaveAttempts(save, chunksOf(files[n]), FileNameMetadata(files[n].fileName), freshGuid, |before.1|);
    assert ProcessRun(save, files, chunksOf, freshGuid).1 == before.1 + Values(run[..FirstFailure(run)]);
    i := k - |before.1|;
  }

  /** What every stored row of a run satisfies: in 'resumes' under the given Guid, embedded from its own text. */
  predicate SavedRow(jsonb: Json.JsonParser, row: SqlHelper.EmbeddingRow, embed: string -> Call<seq<real>>,
                     guid: Guids.Guid, metadataJson: string)
  {
    && row.documentId == guid && row.collection == MemoryCollection
    && embed(row.text) == Returned(row.embedding)
    && Some(row.metadata) == jsonb(metadataJson)
  }

  /**
   * Every row ProcessDocuments stores holds one chunk of one of its files: in
   * 'resumes' under the fresh Guid of its position, embedded from its own text,
   * with its file's metadata as jsonb reads it.
   */
  lemma ProcessedRows(jsonb: Json.JsonParser, embed: string -> Call<seq<real>>, files: seq<VectorService.PdfFile>,
                      chunksOf: VectorService.PdfFile -> seq<string>, freshGuid: nat -> Guids.Guid, k: nat)
    returns (j: nat, i: nat)
    requires k < |ProcessRun(Saving(jsonb, embed), files, chunksOf, freshGuid).1|
    ensures j < |files| && i < |chunksOf(files[j])|
    ensures var row := ProcessRun(Saving(jsonb, embed), files, chunksOf, freshGuid).1[k];
            SavedRow(jsonb, row, embed, freshGuid(k), FileNameMetadata(files[j].fileName))
            && row.text == chunksOf(files[j])[i]
  {
    j, i := ProcessRunAt(Saving(jsonb, embed), files, chunksOf, freshGuid, k);
    SaveAttemptCause(jsonb, chunksOf(files[j])[i], FileNameMetadata(files[j].fileName), freshGuid(k), embed);
  }

  /** When the fresh Guids are distinct, no two rows ProcessDocuments stores share a document id. */
  lemma ProcessedIdsDistinct(jsonb: Json.JsonParser, embed: string -> Call<seq<real>>, files: seq<VectorService.PdfFile>,
                             chunksOf: VectorService.PdfFile -> seq<string>, freshGuid: nat -> Guids.Guid)
    requires forall a: nat, b: nat :: a != b ==> freshGuid(a) != freshGuid(b)
    ensures var rows := ProcessRun(Saving(jsonb, embed), files, chunksOf, freshGuid).1;
            forall a, b :: 0 <= a < b < |rows| ==> rows[a].documentId != rows[b].documentId
  {
    var rows := ProcessRun(Saving(jsonb, embed), files, chunksOf, freshGuid).1;
    forall a, b | 0 <= a < b < |rows| ensures rows[a].documentId != rows[b].documentId {
      var _, _ := ProcessedRows(jsonb, embed, files, chunksOf, freshGuid, a);
      var _, _ := ProcessedRows(jsonb, embed, files, chunksOf, freshGuid, b);
    }
  }

  /** ExtractTextFromPdf: the class's own copy of the page loop, with the same result as the reader's. */
  method ExtractTextFromPdf(pages: seq<seq<string>>) returns (text: string)
    ensures text == DocumentTextReader.PdfText(pages)
  {
    text := "";
    for i := 0 to |pages|
      invariant text == DocumentTextReader.PdfText(pages[..i])
    {
      var words := DocumentTextReader.PageWords(pages[i]);
      var pageText := Join(" ", words);
      DocumentTextReader.PdfTextSnoc(pages[..i + 1]);
      assert pages[..i + 1][..i] == pages[..i];
      text := text + pageText + NewLine;
    }
    assert pages[..|pages|] == pages;
  }

  /**
   * One iteration of the chunk loop: SaveInformationAsync for chunk i, which
   * embeds the chunk and upserts the record it builds into the memory store.
   */
  method SaveNext(store: Store.MemoryStore, fileName: string, chunks: seq<string>,
                  embed: string -> Call<seq<real>>, freshGuid: nat -> Guids.Guid, start: nat, i: nat)
    returns (o: Outcome)
    requires i < |chunks|
    modifies store.db
    ensures var guid := freshGuid(start + i);
            var attempt := SaveAttempt(store.db.jsonb, chunks[i], FileNameMetadata(fileName), guid, embed);
            && (attempt.Success? ==> o == Pass && store.db.rows == old(store.db.rows) + [attempt.value])
            && (attempt.Failure? ==> o == Fail(attempt.error) && store.db.rows == old(store.db.rows))
  {
    var guid := freshGuid(start + i);
    var save := ChunkSave(fileName, chunks[i], i, |chunks|, guid);
    var embedding := embed(save.text);
    if embedding.Raised? {
      return Fail(Unhandled(embedding.exception));
    }
    var record := Store.MemoryRecord(
      Store.MemoryRecordMetadata(save.id, save.text, save.description, save.additionalMetadata), embedding.value);
    Store.ChooseIdOfGuidText(guid, guid);
    var r := store.Upsert(save.collection, record, guid);
    o := if r.Success? then Pass else Fail(r.error);
  }

  /** The chunk loop of ProcessDocuments: one save per chunk, in chunk order, until one fails. */
  method SaveChunks(store: Store.MemoryStore, fileName: string, chunks: seq<string>,
                    embed: string -> Call<seq<real>>, freshGuid: nat -> Guids.Guid, start: nat)
    returns (o: Outcome)
    modifies store.db
    ensures var attempts := FileSaveAttempts(Saving(store.db.jsonb, embed), chunks, FileNameMetadata(fileName), freshGuid, start);
            && o == Through(attempts)
            && store.db.rows == old(store.db.rows) + Values(attempts[..FirstFailure(attempts)])
  {
    ghost var attempts := FileSaveAttempts(Saving(store.db.jsonb, embed), chunks, FileNameMetadata(fileName), freshGuid, start);
    for i := 0 to |chunks|
      invariant forall k :: 0 <= k < i ==> attempts[k].Success?
      invariant store.db.rows == old(store.db.rows) + Values(attempts[..i])
    {
      o := SaveNext(store, fileName, chunks, embed, freshGuid, start, i);
      if o.Fail? {
        FirstFailureIs(attempts, i);
        return;
      }
      ValuesSnoc(attempts, i);
    }
    FirstFailureIs(attempts, |chunks|);
    assert attempts[..|chunks|] == attempts;
    o := Pass;
  }

  /** The body of ProcessDocuments' loop for one file: extract, chunk, then save the chunks. */
  method ProcessFile(store: Store.MemoryStore, file: VectorService.PdfFile, split: VectorService.Chunker,
                     embed: string -> Call<seq<real>>, freshGuid: nat -> Guids.Guid, start: nat)
    returns (o: Outcome, count: nat)
    modifies store.db
    ensures var attempts := FileSaveAttempts(Saving(store.db.jsonb, embed), VectorService.FileChunks(split)(file),
                                             FileNameMetadata(file.fileName), freshGuid, start);
            && o == Through(attempts) && count == |attempts|
            && store.db.rows == old(store.db.rows) + Values(attempts[..FirstFailure(attempts)])
  {
    var extracted := ExtractTextFromPdf(file.pages);
    var chunks := split(extracted);
    assert chunks == VectorService.FileChunks(split)(file);
    o := SaveChunks(store, file.fileName, chunks, embed, freshGuid, start);
    count := |chunks|;
  }

  /**
   * ProcessDocuments: every file's text extracted and chunked, then its chunks
   * saved into the 'resumes' collection; the first failing save ends the run
   * and is passed on, the rows stored before it stay.
   */
  method ProcessDocuments(store: Store.MemoryStore, files: seq<VectorService.PdfFile>, split: VectorService.Chunker,
                          embed: string -> Call<seq<real>>, freshGuid: nat -> Guids.Guid) returns (o: Outcome)
    modifies store.db
    ensures var run := ProcessRun(Saving(store.db.jsonb, embed), files, VectorService.FileChunks(split), freshGuid);
            o == run.0 && store.db.rows == old(store.db.rows) + run.1
  {
    ghost var stored: seq<SqlHelper.EmbeddingRow> := [];
    ghost var save, chunksOf := Saving(store.db.jsonb, embed), VectorService.FileChunks(split);
    var start := 0;
    for f := 0 to |files|
      invariant ProcessRun(save, files[..f], chunksOf, freshGuid) == (Pass, stored)
      invariant start == |stored|
      invariant store.db.rows == old(store.db.rows) + stored
    {
      var count;
      o, count := ProcessFile(store, files[f], split, embed, freshGuid, start);
      ProcessRunSnoc(save, files, chunksOf, freshGuid, f, stored);
      ghost var run := FileSaveAttempts(save, chunksOf(files[f]), FileNameMetadata(files[f].fileName), freshGuid, start);
      ghost var added := Values(run[..FirstFailure(run)]);
      Seqs.AppendAssoc(old(store.db.rows), stored, added);
      if o.Fail? {
        ProcessRunStopped(save, files, chunksOf, freshGuid, f + 1);
        return;
      }
      stored := stored + added;
      start := start + count;
    }
    assert files[..|files|] == files;
    o := Pass;
  }

  /**
   * The rows the recall's search returns: at most ten, each scoring above 0.75,
   * without its vector, and each a stored row of 'resumes'.
   */
  lemma RecallRows(rows: seq<SqlHelper.EmbeddingRow>, query: seq<real>, similarity: SqlHelper.Similarity,
                   jsonbOut: SqlHelper.JsonbOutput)
    ensures var rs := SqlHelper.SearchRows(rows, MemoryCollection, query, similarity, jsonbOut, RecallRelevance, RecallLimit, false);
            && |rs| <= RecallLimit
            && forall i :: 0 <= i < |rs| ==>
                 && rs[i].similarity > RecallRelevance && rs[i].embedding == []
                 && exists row :: row in rows && row.collection == MemoryCollection
                                  && rs[i].documentId == Guids.Format(row.documentId)
  {
    var rs := SqlHelper.SearchRows(rows, MemoryCollection, query, similarity, jsonbOut, RecallRelevance, RecallLimit, false);
    SqlHelper.SearchRanked(rows, MemoryCollection, query, similarity, jsonbOut, RecallRelevance, RecallLimit, false);
    forall i | 0 <= i < |rs|
      ensures && rs[i].similarity > RecallRelevance && rs[i].embedding == []
              && exists row :: row in rows && row.collection == MemoryCollection
                               && rs[i].documentId == Guids.Format(row.documentId)
    {
      SqlHelper.SearchFiltersRows(rows, MemoryCollection, query, similarity, jsonbOut, RecallRelevance, RecallLimit, false, i);
    }
  }

  /**
   * What the recall promises of its matches: at most ten, each scoring above
   * 0.75, without embeddings, and each the id of a stored row of 'resumes'.
   */
  predicate RecallBounded(rows: seq<SqlHelper.EmbeddingRow>, matches: seq<(Store.MemoryRecord, real)>)
  {
    && |matches| <= RecallLimit
    && forall i :: 0 <= i < |matches| ==>
         && matches[i].1 > RecallRelevance && matches[i].0.embedding == []
         && exists row :: row in rows && row.collection == MemoryCollection
                          && matches[i].0.metadata.id == Guids.Format(row.documentId)
  }

  /**
   * The recall the prompt template configures: the question embedded; then,
   * when the 'resumes' collection exists, its nearest matches, one per row of
   * the top-10 search at 0.75, in ranked order and without embeddings, and
   * otherwise no match. The embedding
   * call's exception and the search's error are passed on.
   */
  method Recall(store: Store.MemoryStore, question: string, embed: string -> Call<seq<real>>,
                similarity: SqlHelper.Similarity) returns (r: Result<seq<(Store.MemoryRecord, real)>>)
    ensures embed(question).Raised? ==> r == Failure(Unhandled(embed(question).exception))
    ensures embed(question).Returned? && !Store.HasCollection(store.db.rows, MemoryCollection) ==> r == Success([])
    ensures embed(question).Returned? && Store.HasCollection(store.db.rows, MemoryCollection) ==>
              var check := SqlHelper.SearchCheck(store.db.rows, MemoryCollection, embed(question).value, RecallLimit);
              && (r.Failure? <==> check.Fail?)
              && (check.Fail? ==> r.error == check.error)
    ensures r.Success? ==>
              && embed(question).Returned?
              && var rs := SqlHelper.SearchRows(store.db.rows, MemoryCollection, embed(question).value, similarity,
                                                store.db.jsonbOut, RecallRelevance, RecallLimit, false);
                 && |r.value| == |rs|
                 && forall i :: 0 <= i < |rs| ==> r.value[i] == Store.ToMatch(store.db.jsonb, rs[i], false)
    ensures r.Success? ==> RecallBounded(store.db.rows, r.value)
  {
    var embedded := embed(question);
    if embedded.Raised? {
      return Failure(Unhandled(embedded.exception));
    }
    if !Store.HasCollection(store.db.rows, MemoryCollection) {
      NoCollectionNoRecall(store.db.rows, embedded.value, similarity, store.db.jsonbOut);
      return Success([]);
    }
    r := store.GetNearestMatches(MemoryCollection, embedded.value, similarity, RecallLimit, RecallRelevance, false);
    if r.Success? {
      RecallMatches(store.db.rows, embedded.value, similarity, store.db.jsonbOut, store.db.jsonb, r.value);
    }
  }

  /** Without a row of 'resumes' the recall's search has no rows either. */
  lemma NoCollectionNoRecall(rows: seq<SqlHelper.EmbeddingRow>, query: seq<real>, similarity: SqlHelper.Similarity,
                             jsonbOut: SqlHelper.JsonbOutput)
    requires !Store.HasCollection(rows, MemoryCollection)
    ensures SqlHelper.SearchRows(rows, MemoryCollection, query, similarity, jsonbOut, RecallRelevance, RecallLimit, false) == []
  {
    var rs := SqlHelper.SearchRows(rows, MemoryCollection, query, similarity, jsonbOut, RecallRelevance, RecallLimit, false);
    if rs != [] {
      RecallRows(rows, query, similarity, jsonbOut);
    }
  }

  /** Matches built one per recall search row share the rows' bounds. */
  lemma RecallMatches(rows: seq<SqlHelper.EmbeddingRow>, query: seq<real>, similarity: SqlHelper.Similarity,
                      jsonbOut: SqlHelper.JsonbOutput, jsonb: Json.JsonParser, matches: seq<(Store.MemoryRecord, real)>)
    requires var rs := SqlHelper.SearchRows(rows, MemoryCollection, query, similarity, jsonbOut, RecallRelevance, RecallLimit, false);
             && |matches| == |rs|
             && forall i :: 0 <= i < |rs| ==> matches[i] == Store.ToMatch(jsonb, rs[i], false)
    ensures RecallBounded(rows, matches)
  {
    var rs := SqlHelper.SearchRows(rows, MemoryCollection, query, similarity, jsonbOut, RecallRelevance, RecallLimit, false);
    RecallRows(rows, query, similarity, jsonbOut);
    forall i | 0 <= i < |matches|
      ensures && matches[i].1 > RecallRelevance && matches[i].0.embedding == []
              && exists row :: row in rows && row.collection == MemoryCollection
                               && matches[i].0.metadata.id == Guids.Format(row.documentId)
    {
      assert matches[i] == Store.ToMatch(jsonb, rs[i], false);
      var row :| row in rows && row.collection == MemoryCollection && rs[i].documentId == Guids.Format(row.documentId);
      assert matches[i].0.metadata.id == Guids.Format(row.documentId);
    }
  }

  /**
   * QueryMemory: the answer's text, or the failure message, classified as for
   * the vector pipeline. The whole prompt invocation, recall included, runs
   * inside the try, so every exception it raises ends up here.
   */
  function QueryMemoryLines(answer: Call<string>): (lines: seq<string>)
    ensures answer.Returned? ==> lines == [answer.value]
    ensures answer.Raised? ==> lines == VectorService.FailureLines(answer.exception)
  {
    VectorService.ResponseLines(answer)
  }
}
