/**
 * The vector-store pipeline over the 'resumes' collection: importing PDF
 * files one chunk at a time, retrieving the five nearest resumes and keeping
 * the relevant ones, building the answer prompt, and turning a failed
 * completion into the message the user sees. The embedding model, the chat
 * model, the text chunker and the vector-store connector are parameters.
 */
module VectorService {
  import opened Wrappers
  import opened Text
  import Seqs
  import R = Resume
  import DocumentTextReader
  import DbHelper

  // ---------------------------------------------------------------- import

  /** A PDF file of the import directory: its name and its pages' words. */
  datatype PdfFile = PdfFile(fileName: string, pages: seq<seq<string>>)

  /** Splits extracted text into chunks (the library's plain-text line chunker, 1000 tokens per line). */
  type Chunker = string -> seq<string>

  /** The chunks of each file: the chunker applied to the file's extracted text. */
  function FileChunks(split: Chunker): PdfFile -> seq<string>
  {
    (file: PdfFile) => split(DocumentTextReader.PdfText(file.pages))
  }

  /** Number of chunks over all files. */
  function TotalChunks(chunksOf: PdfFile -> seq<string>, files: seq<PdfFile>): nat
  {
    if files == [] then 0
    else TotalChunks(chunksOf, files[..|files| - 1]) + |chunksOf(files[|files| - 1])|
  }

  /** The record GenerateEmbeddingsAndUpsertAsync hands to the collection's upsert. */
  function UpsertRecord(fileName: string, text: string, tags: Option<seq<string>>, embedding: seq<real>,
                        hash: R.Int32): (r: R.Resume)
    ensures r.Id == hash && r.FileName == fileName && r.Content == text
    ensures r.ContentEmbedding == Some(embedding)
    ensures tags.None? ==> r.Tags == []
    ensures tags.Some? ==> r.Tags == tags.value
  {
    R.Resume(hash, fileName, text, Some(embedding), tags.GetOr([]))
  }

  /**
   * What GenerateEmbeddingsAndUpsertAsync makes of one text: the record the
   * connector stores, or the exception of the embedding call, or the error the
   * upsert raises.
   */
  function UpsertAttempt(fileName: string, text: string, tags: Option<seq<string>>,
                         embed: string -> Call<seq<real>>, hash: R.Int32): Result<R.Resume>
  {
    match embed(text)
    case Raised(e) => Failure(Unhandled(e))
    case Returned(embedding) =>
      var record := UpsertRecord(fileName, text, tags, embedding, hash);
      match DbHelper.UpsertCheck(record)
      case Fail(e) => Failure(e)
      case Pass => Success(record)
  }

  /**
   * A text is stored exactly when its embedding is returned and the upsert
   * accepts the record, and then it is stored with that embedding.
   */
  lemma UpsertAttemptCause(fileName: string, text: string, tags: Option<seq<string>>,
                           embed: string -> Call<seq<real>>, hash: R.Int32)
    ensures var a := UpsertAttempt(fileName, text, tags, embed, hash);
            && (embed(text).Raised? ==> a == Failure(Unhandled(embed(text).exception)))
            && (embed(text).Returned? ==>
                  var record := UpsertRecord(fileName, text, tags, embed(text).value, hash);
                  && (a.Success? <==> DbHelper.UpsertCheck(record).Pass?)
                  && (a.Success? ==> a.value == record)
                  && (a.Failure? ==> a.error == DbHelper.UpsertCheck(record).error))
  {
  }

  /**
   * The attempts of one file's chunks, the first one being the import's upsert
   * number 'start'; 'hashes(k)' is the hash code of the fresh Guid drawn for upsert number k.
   */
  function FileAttempts(fileName: string, chunks: seq<string>, embed: string -> Call<seq<real>>,
                        hashes: nat -> R.Int32, start: nat): (rs: seq<Result<R.Resume>>)
    ensures |rs| == |chunks|
    ensures forall i :: 0 <= i < |rs| ==> rs[i] == UpsertAttempt(fileName, chunks[i], None, embed, hashes(start + i))
  {
    seq(|chunks|, i requires 0 <= i < |chunks| => UpsertAttempt(fileName, chunks[i], None, embed, hashes(start + i)))
  }

  /**
   * What an import of the given files does: the outcome, and the records
   * stored, file by file and chunk by chunk, up to the first failure, which
   * ends the import. Chunk k of the import draws fresh Guid number k.
   */
  function ImportRun(files: seq<PdfFile>, chunksOf: PdfFile -> seq<string>, embed: string -> Call<seq<real>>,
                     hashes: nat -> R.Int32): (r: (Outcome, seq<R.Resume>))
  {
    if files == [] then (Pass, [])
    else
      var before := ImportRun(files[..|files| - 1], chunksOf, embed, hashes);
      if before.0.Fail? then before
      else
        var file := files[|files| - 1];
        var run := FileAttempts(file.fileName, chunksOf(file), embed, hashes, |before.1|);
        (Through(run), before.1 + Values(run[..FirstFailure(run)]))
  }

  /** The records an import stores. */
  function ImportedRecords(files: seq<PdfFile>, chunksOf: PdfFile -> seq<string>, embed: string -> Call<seq<real>>,
                           hashes: nat -> R.Int32): seq<R.Resume>
  {
    ImportRun(files, chunksOf, embed, hashes).1
  }

  /** What an import reports: success, or the error of its first failing chunk. */
  function ImportOutcome(files: seq<PdfFile>, chunksOf: PdfFile -> seq<string>, embed: string -> Call<seq<real>>,
                         hashes: nat -> R.Int32): Outcome
  {
    ImportRun(files, chunksOf, embed, hashes).0
  }

  /** A successful import stores one record per chunk; a failed one stops short of the last chunk. */
  lemma {:induction false} ImportRunCount(files: seq<PdfFile>, chunksOf: PdfFile -> seq<string>,
                                          embed: string -> Call<seq<real>>, hashes: nat -> R.Int32)
    ensures var r := ImportRun(files, chunksOf, embed, hashes);
            && (r.0.Pass? ==> |r.1| == TotalChunks(chunksOf, files))
            && (r.0.Fail? ==> |r.1| < TotalChunks(chunksOf, files))
  {
    if files != [] {
      var n := |files| - 1;
      ImportRunCount(files[..n], chunksOf, embed, hashes);
    }
  }

  /** Once the files so far have failed, the import has failed the same way, whatever files follow. */
  lemma {:induction false} ImportRunStopped(files: seq<PdfFile>, chunksOf: PdfFile -> seq<string>,
                                            embed: string -> Call<seq<real>>, hashes: nat -> R.Int32, f: nat)
    requires f <= |files| && ImportRun(files[..f], chunksOf, embed, hashes).0.Fail?
    ensures ImportRun(files, chunksOf, embed, hashes) == ImportRun(files[..f], chunksOf, embed, hashes)
  {
    if f < |files| {
      var n := |files| - 1;
      assert files[..n][..f] == files[..f];
      ImportRunStopped(files[..n], chunksOf, embed, hashes, f);
    } else {
      assert files[..f] == files;
    }
  }

  /**
   * Stored record number k of an import is chunk k's: keyed by fresh Guid
   * number k's hash, and named after file number j.
   */
  lemma {:induction false} ImportRunAt(files: seq<PdfFile>, chunksOf: PdfFile -> seq<string>,
                                       embed: string -> Call<seq<real>>, hashes: nat -> R.Int32, k: nat)
    returns (j: nat)
    requires k < |ImportRun(files, chunksOf, embed, hashes).1|
    ensures var r := ImportRun(files, chunksOf, embed, hashes).1[k];
            StoredRecord(r, embed, hashes(k)) && j < |files| && r.FileName == files[j].fileName
  {
    var n := |files| - 1;
    var before := ImportRun(files[..n], chunksOf, embed, hashes);
    if k < |before.1| {
      assert ImportRun(files, chunksOf, embed, hashes).1[k] == before.1[k];
      j := ImportRunAt(files[..n], chunksOf, embed, hashes, k);
      assert files[..n][j] == files[j];
    } else {
      var run := FileAttempts(files[n].fileName, chunksOf(files[n]), embed, hashes, |before.1|);
      var added := Values(run[..FirstFailure(run)]);
      assert ImportRun(files, chunksOf, embed, hashes).1 == before.1 + added;
      FileStoredAt(files[n].fileName, chunksOf(files[n]), embed, hashes, |before.1|, k - |before.1|);
      j := n;
    }
  }

  /**
   * What every stored record of an import satisfies: keyed by the given hash,
   * untagged, with the embedding returned for its own text, and passing the
   * upsert's checks.
   */
  predicate StoredRecord(r: R.Resume, embed: string -> Call<seq<real>>, hash: R.Int32)
  {
    && r.Id == hash && r.Tags == [] && r.ContentEmbedding.Some?
    && embed(r.Content) == Returned(r.ContentEmbedding.value)
    && DbHelper.UpsertCheck(r).Pass?
  }

  /** Stored record number k of a file is chunk k's, keyed by fresh Guid number start + k's hash. */
  lemma FileStoredAt(fileName: string, chunks: seq<string>, embed: string -> Call<seq<real>>,
                     hashes: nat -> R.Int32, start: nat, k: nat)
    requires k < FirstFailure(FileAttempts(fileName, chunks, embed, hashes, start))
    ensures var run := FileAttempts(fileName, chunks, embed, hashes, start);
            var r := Values(run[..FirstFailure(run)])[k];
            StoredRecord(r, embed, hashes(start + k)) && r.FileName == fileName && r.Content == chunks[k]
  {
    UpsertAttemptCause(fileName, chunks[k], None, embed, hashes(start + k));
  }

  /**
   * Every record an import stores is keyed by its fresh Guid's hash, untagged,
   * embedded from its own text, accepted by the upsert and from an imported file.
   */
  lemma ImportedRecordsShape(files: seq<PdfFile>, chunksOf: PdfFile -> seq<string>, embed: string -> Call<seq<real>>,
                             hashes: nat -> R.Int32)
    ensures var rs := ImportedRecords(files, chunksOf, embed, hashes);
            forall k :: 0 <= k < |rs| ==>
              && rs[k].Id == hashes(k) && rs[k].Tags == [] && rs[k].ContentEmbedding.Some?
              && embed(rs[k].Content) == Returned(rs[k].ContentEmbedding.value)
              && DbHelper.UpsertCheck(rs[k]).Pass?
              && exists j :: 0 <= j < |files| && rs[k].FileName == files[j].fileName
  {
    var rs := ImportedRecords(files, chunksOf, embed, hashes);
    forall k | 0 <= k < |rs|
      ensures StoredRecord(rs[k], embed, hashes(k)) && exists j :: 0 <= j < |files| && rs[k].FileName == files[j].fileName
    {
      var j := ImportRunAt(files, chunksOf, embed, hashes, k);
    }
  }

  /**
   * GenerateEmbeddingsAndUpsertAsync: embed the text, then upsert the record
   * under the hash of a fresh Guid. An exception of either call ends it.
   */
  method GenerateEmbeddingsAndUpsert(table: DbHelper.ResumesTable, fileName: string, text: string,
                                     tags: Option<seq<string>>, embed: string -> Call<seq<real>>, hash: R.Int32)
    returns (o: Outcome)
    requires table.Valid()
    modifies table
    ensures table.Valid()
    ensures var a := UpsertAttempt(fileName, text, tags, embed, hash);
            && (a.Success? ==> o == Pass && table.rows == DbHelper.Upserted(old(table.rows), DbHelper.RowOf(a.value)))
            && (a.Failure? ==> o == Fail(a.error) && table.rows == old(table.rows))
  {
    var embedding := embed(text);
    if embedding.Raised? {
      return Fail(Unhandled(embedding.exception));
    }
    o := table.Upsert(UpsertRecord(fileName, text, tags, embedding.value, hash));
  }

  /** The chunk loop of ImportResumes: one embed-and-upsert per chunk, in chunk order, up to the first failure. */
  method UpsertChunks(table: DbHelper.ResumesTable, fileName: string, chunks: seq<string>,
                      embed: string -> Call<seq<real>>, hashes: nat -> R.Int32, start: nat) returns (o: Outcome)
    requires table.Valid()
    modifies table
    ensures table.Valid()
    ensures var attempts := FileAttempts(fileName, chunks, embed, hashes, start);
            && o == Through(attempts)
            && table.rows == DbHelper.UpsertAll(old(table.rows), Values(attempts[..FirstFailure(attempts)]))
  {
    ghost var attempts := FileAttempts(fileName, chunks, embed, hashes, start);
    for i := 0 to |chunks|
      invariant table.Valid()
      invariant forall k :: 0 <= k < i ==> attempts[k].Success?
      invariant table.rows == DbHelper.UpsertAll(old(table.rows), Values(attempts[..i]))
    {
      o := GenerateEmbeddingsAndUpsert(table, fileName, chunks[i], None, embed, hashes(start + i));
      if o.Fail? {
        FirstFailureIs(attempts, i);
        return;
      }
      ValuesSnoc(attempts, i);
      DbHelper.UpsertAllSnoc(old(table.rows), Values(attempts[..i]), attempts[i].value);
    }
    FirstFailureIs(attempts, |chunks|);
    assert attempts[..|chunks|] == attempts;
    o := Pass;
  }

  /** The body of ImportResumes' loop for one file: extract, chunk, then embed and upsert the chunks. */
  method ImportFile(table: DbHelper.ResumesTable, file: PdfFile, split: Chunker, embed: string -> Call<seq<real>>,
                    hashes: nat -> R.Int32, start: nat) returns (o: Outcome, count: nat)
    requires table.Valid()
    modifies table
    ensures table.Valid()
    ensures var attempts := FileAttempts(file.fileName, FileChunks(split)(file), embed, hashes, start);
            && o == Through(attempts) && count == |attempts|
            && table.rows == DbHelper.UpsertAll(old(table.rows), Values(attempts[..FirstFailure(attempts)]))
  {
    var extracted := DocumentTextReader.ExtractTextFromPdf(file.pages);
    var chunks := split(extracted);
    assert chunks == FileChunks(split)(file);
    o := UpsertChunks(table, file.fileName, chunks, embed, hashes, start);
    count := |chunks|;
  }

  /**
   * ImportResumes: every file's text extracted and chunked, then its chunks
   * embedded and upserted into the 'resumes' collection; the first failure ends
   * the import and is passed on, the records stored before it stay.
   */
  method ImportResumes(table: DbHelper.ResumesTable, files: seq<PdfFile>, split: Chunker,
                       embed: string -> Call<seq<real>>, hashes: nat -> R.Int32) returns (o: Outcome)
    requires table.Valid()
    modifies table
    ensures table.Valid()
    ensures o == ImportOutcome(files, FileChunks(split), embed, hashes)
    ensures table.rows == DbHelper.UpsertAll(old(table.rows), ImportedRecords(files, FileChunks(split), embed, hashes))
  {
    ghost var stored: seq<R.Resume> := [];
    var start := 0;
    for f := 0 to |files|
      invariant table.Valid()
      invariant ImportRun(files[..f], FileChunks(split), embed, hashes) == (Pass, stored)
      invariant start == |stored|
      invariant table.rows == DbHelper.UpsertAll(old(table.rows), stored)
    {
      var count;
      o, count := ImportFile(table, files[f], split, embed, hashes, start);
      ghost var run := FileAttempts(files[f].fileName, FileChunks(split)(files[f]), embed, hashes, start);
      ghost var added := Values(run[..FirstFailure(run)]);
      assert files[..f + 1][..f] == files[..f];
      assert ImportRun(files[..f + 1], FileChunks(split), embed, hashes) == (o, stored + added);
      DbHelper.UpsertAllAppend(old(table.rows), stored, added);
      if o.Fail? {
        ImportRunStopped(files, FileChunks(split), embed, hashes, f + 1);
        return;
      }
      FirstFailureIs(run, |run|);
      assert run[..|run|] == run;
      stored := stored + added;
      start := start + count;
    }
    assert files[..|files|] == files;
    o := Pass;
  }

  // ------------------------------------------------------------- retrieval

  /** A search hit: the record and its score, which the connector may leave null. */
  datatype SearchResult = SearchResult(Record: R.Resume, Score: Option<real>)

  /** Number of nearest records the search asks for. */
  const Top: nat := 5

  /** Lowest score a hit may have to be kept. */
  const MinRelevance: real := 0.75

  /** 'Score >= .75' on a nullable score: a null score compares false. */
  predicate IsRelevant(r: SearchResult)
  {
    r.Score.Some? && r.Score.value >= MinRelevance
  }

  /** The prompt that asks the chat model for the search query behind the user's question. */
  function RewritePrompt(userQuery: string): string
  {
    RewriteInstruction + userQuery
  }

  const RewriteInstruction: string :=
    "Return just the actual search query to use to search a separate vector store without any search instructions from: "

  /** The kept hits: exactly the relevant ones, in search order. */
  function FilterRelevant(results: seq<SearchResult>): (r: seq<SearchResult>)
    ensures |r| <= |results|
    ensures forall x :: x in r <==> x in results && IsRelevant(x)
    ensures Seqs.IsSubsequence(r, results)
  {
    Seqs.FilterIsSubsequence(results, IsRelevant);
    Seqs.Filter(results, IsRelevant)
  }

  /** Every relevant hit is kept as often as the search returned it. */
  lemma FilterRelevantCopies(results: seq<SearchResult>)
    ensures forall x :: multiset(FilterRelevant(results))[x] == if IsRelevant(x) then multiset(results)[x] else 0
  {
    Seqs.FilterMultiset(results, IsRelevant);
  }

  /**
   * The connector's vectorized search over the 'resumes' table: given the table's
   * rows, the query vector and Top, the hits it returns or the exception it throws.
   */
  type Search = (seq<DbHelper.ResumeRow>, seq<real>, nat) -> Call<seq<SearchResult>>

  /**
   * RetrieveContextAsync: rewrite the question, embed the rewrite, ask for the
   * Top nearest records and keep the relevant ones. An exception of any of the
   * three calls propagates unchanged.
   */
  function RetrieveContext(rows: seq<DbHelper.ResumeRow>, userQuery: string, complete: string -> Call<string>,
                           embed: string -> Call<seq<real>>, search: Search): (r: Call<seq<SearchResult>>)
    ensures complete(RewritePrompt(userQuery)).Raised? ==> r == Raised(complete(RewritePrompt(userQuery)).exception)
    ensures complete(RewritePrompt(userQuery)).Returned? ==>
              var query := complete(RewritePrompt(userQuery)).value;
              && (embed(query).Raised? ==> r == Raised(embed(query).exception))
              && (embed(query).Returned? ==>
                    var hits := search(rows, embed(query).value, Top);
                    && (hits.Raised? ==> r == Raised(hits.exception))
                    && (hits.Returned? ==>
                          && r.Returned? && Seqs.IsSubsequence(r.value, hits.value)
                          && forall x :: x in r.value <==> x in hits.value && IsRelevant(x)))
  {
    match complete(RewritePrompt(userQuery))
    case Raised(e) => Raised(e)
    case Returned(query) =>
      match embed(query)
      case Raised(e) => Raised(e)
      case Returned(vector) =>
        match search(rows, vector, Top)
        case Raised(e) => Raised(e)
        case Returned(hits) => Returned(FilterRelevant(hits))
  }

  /** A search that honours its Top argument yields at most five kept hits, all with a score of at least 0.75. */
  lemma RetrievedAtMostTop(rows: seq<DbHelper.ResumeRow>, userQuery: string, complete: string -> Call<string>,
                           embed: string -> Call<seq<real>>, search: Search)
    requires forall v :: search(rows, v, Top).Returned? ==> |search(rows, v, Top).value| <= Top
    ensures var r := RetrieveContext(rows, userQuery, complete, embed, search);
            r.Returned? ==> |r.value| <= 5 && forall i :: 0 <= i < |r.value| ==> r.value[i].Score.Some? && r.value[i].Score.value >= 0.75
  {
    var r := RetrieveContext(rows, userQuery, complete, embed, search);
    if r.Returned? {
      assert forall i :: 0 <= i < |r.value| ==> r.value[i] in r.value;
    }
  }

  // ---------------------------------------------------------------- prompt

  const Instruction: string :=
    "Answer the question based on the following resumes. If no resume round with relevant information to answer the question, "
    + Acknowledge

  const Acknowledge: string := "acknowledge this limitation."

  /** The fixed texts of the template and of a context entry. */
  const ResumesHeading: string := "\n\nRESUMES:\n"
  const QuestionHeading: string := "\n\nQUESTION:\n"
  const AnswerHeading: string := "\n\nANSWER:"
  const ResumeFor: string := "Resume for "
  const RelevanceLabel: string := "Relevance: "

  predicate AllScored(results: seq<SearchResult>)
  {
    forall i :: 0 <= i < |results| ==> results[i].Score.Some?
  }

  /** The four lines one hit contributes to the context, each with its terminator. */
  function Entry(result: SearchResult, showScore: real -> string): string
    requires result.Score.Some?
  {
    ResumeFor + result.Record.FileName + ":" + NewLine
    + result.Record.Content + NewLine
    + RelevanceLabel + showScore(result.Score.value) + NewLine
    + NewLine
  }

  /** The context block: the hits' entries in list order. */
  function Context(results: seq<SearchResult>, showScore: real -> string): (r: string)
    requires AllScored(results)
    ensures r == [] || r[|r| - 1] == '\n'
  {
    if results == [] then ""
    else Context(results[..|results| - 1], showScore) + Entry(results[|results| - 1], showScore)
  }

  /** The final prompt around a context block. */
  function Prompt(userQuery: string, context: string): string
  {
    Template(Instruction, userQuery, context)
  }

  /** The prompt's raw string template, with its three holes. */
  function Template(instruction: string, userQuery: string, context: string): string
  {
    instruction + (ResumesHeading + (context + (QuestionHeading + (userQuery + AnswerHeading))))
  }

  /** Appending an entry's four lines one by one appends the entry. */
  lemma EntryAppended(before: string, result: SearchResult, showScore: real -> string)
    requires result.Score.Some?
    ensures before + (ResumeFor + result.Record.FileName + ":") + NewLine + result.Record.Content + NewLine
            + (RelevanceLabel + showScore(result.Score.value)) + NewLine + NewLine
            == before + Entry(result, showScore)
  {
  }

  /** ConstructPrompt: fails on the first hit without a score, where '.Value' throws. */
  method ConstructPrompt(userQuery: string, resumes: seq<SearchResult>, showScore: real -> string)
    returns (r: Result<string>)
    ensures r.Success? <==> AllScored(resumes)
    ensures r.Success? ==> r.value == Prompt(userQuery, Context(resumes, showScore))
    ensures r.Failure? ==> r.error == NullScore
  {
    var contextBuilder := "";
    for i := 0 to |resumes|
      invariant AllScored(resumes[..i])
      invariant contextBuilder == Context(resumes[..i], showScore)
    {
      var resume := resumes[i];
      contextBuilder := contextBuilder + (ResumeFor + resume.Record.FileName + ":") + NewLine;
      contextBuilder := contextBuilder + resume.Record.Content + NewLine;
      if resume.Score.None? {
        return Failure(NullScore);
      }
      contextBuilder := contextBuilder + (RelevanceLabel + showScore(resume.Score.value)) + NewLine;
      contextBuilder := contextBuilder + NewLine;
      EntryAppended(Context(resumes[..i], showScore), resume, showScore);
      assert resumes[..i + 1][..i] == resumes[..i];
    }
    assert resumes[..|resumes|] == resumes;
    return Success(Prompt(userQuery, contextBuilder));
  }

  /** 'sub' occurs in 's' at position 'i'. */
  predicate OccursAt(s: string, sub: string, i: nat)
  {
    i + |sub| <= |s| && s[i..i + |sub|] == sub
  }

  lemma OccursFirst(x: string, y: string)
    ensures OccursAt(x + y, x, 0)
  {
    assert (x + y)[..|x|] == x;
  }

  lemma OccursLast(x: string, y: string)
    ensures OccursAt(x + y, y, |x|)
  {
    assert (x + y)[|x|..] == y;
  }

  lemma OccursWithin(s: string, t: string, i: nat, u: string, j: nat)
    requires OccursAt(s, t, i) && OccursAt(t, u, j)
    ensures OccursAt(s, u, i + j)
  {
    forall k | 0 <= k < |u| ensures s[i + j + k] == u[k] {
      assert u[k] == t[j..j + |u|][k] == t[j + k];
      assert t[j + k] == s[i..i + |t|][j + k] == s[i + j + k];
    }
  }

  /** The instruction ends by asking to acknowledge missing information. */
  lemma InstructionAcknowledges()
    ensures OccursAt(Instruction, Acknowledge, |Instruction| - |Acknowledge|)
  {
    var lead := Instruction[..|Instruction| - |Acknowledge|];
    assert Instruction == lead + Acknowledge;
    OccursLast(lead, Acknowledge);
  }

  /** The part of the template from the context on. */
  function Closing(userQuery: string, context: string): string
  {
    context + (QuestionHeading + (userQuery + AnswerHeading))
  }

  /** The question part: 'QUESTION:', the query, then 'ANSWER:'. */
  lemma QuestionLayout(userQuery: string)
    ensures var t := QuestionHeading + (userQuery + AnswerHeading);
            && OccursAt(t, "QUESTION:", 2)
            && OccursAt(t, userQuery, 12)
            && OccursAt(t, "ANSWER:", 12 + |userQuery| + 2)
            && |t| == 12 + |userQuery| + 9
  {
    var t4 := userQuery + AnswerHeading;
    var t3 := QuestionHeading + t4;
    OccursFirst(QuestionHeading, t4);
    assert OccursAt(QuestionHeading, "QUESTION:", 2);
    OccursWithin(t3, QuestionHeading, 0, "QUESTION:", 2);
    OccursLast(QuestionHeading, t4);
    OccursFirst(userQuery, AnswerHeading);
    OccursWithin(t3, t4, 12, userQuery, 0);
    OccursLast(userQuery, AnswerHeading);
    assert OccursAt(AnswerHeading, "ANSWER:", 2);
    OccursWithin(t4, AnswerHeading, |userQuery|, "ANSWER:", 2);
    OccursWithin(t3, t4, 12, "ANSWER:", |userQuery| + 2);
  }

  lemma ClosingLayout(userQuery: string, context: string)
    ensures var t := Closing(userQuery, context);
            && OccursAt(t, context, 0)
            && OccursAt(t, "QUESTION:", |context| + 2)
            && OccursAt(t, userQuery, |context| + 12)
            && OccursAt(t, "ANSWER:", |context| + 12 + |userQuery| + 2)
            && |t| == |context| + 12 + |userQuery| + 9
  {
    var t3 := QuestionHeading + (userQuery + AnswerHeading);
    var t := context + t3;
    OccursFirst(context, t3);
    OccursLast(context, t3);
    QuestionLayout(userQuery);
    OccursWithin(t, t3, |context|, "QUESTION:", 2);
    OccursWithin(t, t3, |context|, userQuery, 12);
    OccursWithin(t, t3, |context|, "ANSWER:", 12 + |userQuery| + 2);
  }

  lemma OpeningLayout(instruction: string, userQuery: string, context: string)
    ensures var p := Template(instruction, userQuery, context);
            && OccursAt(p, instruction, 0)
            && OccursAt(p, "RESUMES:", |instruction| + 2)
            && OccursAt(p, Closing(userQuery, context), |instruction| + 11)
            && |p| == |instruction| + 11 + |Closing(userQuery, context)|
  {
    var t2 := Closing(userQuery, context);
    var t1 := ResumesHeading + t2;
    var p := instruction + t1;
    OccursFirst(instruction, t1);
    OccursLast(instruction, t1);
    OccursFirst(ResumesHeading, t2);
    assert OccursAt(ResumesHeading, "RESUMES:", 2);
    OccursWithin(t1, ResumesHeading, 0, "RESUMES:", 2);
    OccursWithin(p, t1, |instruction|, "RESUMES:", 2);
    OccursLast(ResumesHeading, t2);
    OccursWithin(p, t1, |instruction|, t2, 11);
  }

  lemma TemplateLayout(instruction: string, userQuery: string, context: string)
    ensures var p := Template(instruction, userQuery, context);
            var question := |instruction| + 11 + |context| + 2;
            && OccursAt(p, instruction, 0)
            && OccursAt(p, "RESUMES:", |instruction| + 2)
            && OccursAt(p, context, |instruction| + 11)
            && OccursAt(p, "QUESTION:", question)
            && OccursAt(p, userQuery, question + 10)
            && OccursAt(p, "ANSWER:", question + 10 + |userQuery| + 2)
            && |p| == question + 10 + |userQuery| + 9
  {
    var p := Template(instruction, userQuery, context);
    var t := Closing(userQuery, context);
    var n := |instruction| + 11;
    OpeningLayout(instruction, userQuery, context);
    ClosingLayout(userQuery, context);
    OccursWithin(p, t, n, context, 0);
    OccursWithin(p, t, n, "QUESTION:", |context| + 2);
    OccursWithin(p, t, n, userQuery, |context| + 12);
    OccursWithin(p, t, n, "ANSWER:", |context| + 12 + |userQuery| + 2);
  }

  /**
   * Whatever the context, the prompt opens with the instruction (which ends by
   * asking to acknowledge missing information), then has 'RESUMES:', then the
   * context, then 'QUESTION:' followed by the user's query verbatim, and ends
   * with 'ANSWER:'.
   */
  lemma PromptLayout(userQuery: string, context: string)
    ensures var p := Prompt(userQuery, context);
            var question := |Instruction| + 11 + |context| + 2;
            && OccursAt(p, Instruction, 0)
            && OccursAt(Instruction, Acknowledge, |Instruction| - |Acknowledge|)
            && OccursAt(p, "RESUMES:", |Instruction| + 2)
            && OccursAt(p, context, |Instruction| + 11)
            && OccursAt(p, "QUESTION:", question)
            && OccursAt(p, userQuery, question + 10)
            && OccursAt(p, "ANSWER:", |p| - 7)
  {
    TemplateLayout(Instruction, userQuery, context);
    InstructionAcknowledges();
  }

  /** With no relevant hit the context is empty and the prompt still has all its parts. */
  lemma EmptyPrompt(userQuery: string, showScore: real -> string)
    ensures Prompt(userQuery, Context([], showScore))
            == Instruction + ResumesHeading + QuestionHeading + userQuery + AnswerHeading
  {
  }

  /** The lines of an entry, without their terminators. */
  function EntryLines(result: SearchResult, showScore: real -> string): seq<string>
    requires result.Score.Some?
  {
    [ResumeFor + result.Record.FileName + ":", result.Record.Content, RelevanceLabel + showScore(result.Score.value), ""]
  }

  /** No line terminator inside any of the texts an entry is made of. */
  predicate SingleLineEntry(result: SearchResult, showScore: real -> string)
    requires result.Score.Some?
  {
    '\n' !in result.Record.FileName && '\n' !in result.Record.Content && '\n' !in showScore(result.Score.value)
  }

  lemma EntryReadsBack(result: SearchResult, showScore: real -> string)
    requires result.Score.Some? && SingleLineEntry(result, showScore)
    ensures Lines(Entry(result, showScore)) == EntryLines(result, showScore)
  {
    var l1 := ResumeFor + result.Record.FileName + ":";
    var l2 := result.Record.Content;
    var l3 := RelevanceLabel + showScore(result.Score.value);
    assert '\n' !in l1 && '\n' !in l3;
    assert Entry(result, showScore) == l1 + NewLine + (l2 + NewLine + (l3 + NewLine + ("" + NewLine + "")));
    LinesCons("", "");
    LinesCons(l3, "" + NewLine + "");
    LinesCons(l2, l3 + NewLine + ("" + NewLine + ""));
    LinesCons(l1, l2 + NewLine + (l3 + NewLine + ("" + NewLine + "")));
  }

  /** The lines the context should read back as: four per hit, in list order. */
  function ContextLines(results: seq<SearchResult>, showScore: real -> string): (ls: seq<string>)
    requires AllScored(results)
    ensures |ls| == 4 * |results|
  {
    if results == [] then []
    else ContextLines(results[..|results| - 1], showScore) + EntryLines(results[|results| - 1], showScore)
  }

  /** Read back line by line, the context gives four lines per hit, in list order. */
  lemma {:induction false} ContextReadsBack(results: seq<SearchResult>, showScore: real -> string)
    requires AllScored(results)
    requires forall i :: 0 <= i < |results| ==> SingleLineEntry(results[i], showScore)
    ensures Lines(Context(results, showScore)) == ContextLines(results, showScore)
  {
    if results != [] {
      var n := |results| - 1;
      var before := results[..n];
      assert forall i :: 0 <= i < |before| ==> before[i] == results[i];
      ContextReadsBack(before, showScore);
      LinesAppend(Context(before, showScore), Entry(results[n], showScore));
      EntryReadsBack(results[n], showScore);
    }
  }

  // -------------------------------------------------------------- response

  datatype FailureKind = TimedOut | RateLimited | Generic

  /** The catch clause that handles an exception, tried in order. */
  function Classify(e: Exception): (k: FailureKind)
    ensures k == TimedOut <==> e.TaskCanceled?
    ensures k == RateLimited <==> e.Other? && (Contains(e.message, "429") || Contains(e.message, RateLimitText))
    ensures k == Generic <==> e.Other? && !Contains(e.message, "429") && !Contains(e.message, RateLimitText)
  {
    if e.TaskCanceled? then TimedOut
    else if Contains(e.message, "429") || Contains(e.message, RateLimitText) then RateLimited
    else Generic
  }

  const RateLimitText := "rate limit"
  const ErrorPrefix := "An error occurred: "
  const TimeoutMessage := "The request timed out. This might be due to high server load or the complexity of your query."
  const RateLimitMessage := "Rate limit exceeded. Please wait a moment and try again."
  const SimplifyHint := "Try simplifying your query or reducing the context window."

  /** The lines written for a failed completion. */
  function FailureLines(e: Exception): (lines: seq<string>)
    ensures Classify(e) == TimedOut ==> lines == [TimeoutMessage]
    ensures Classify(e) == RateLimited ==> lines == [RateLimitMessage]
    ensures Classify(e) == Generic ==> lines == [ErrorPrefix + e.message, SimplifyHint]
  {
    match Classify(e)
    case TimedOut => [TimeoutMessage]
    case RateLimited => [RateLimitMessage]
    case Generic => [ErrorPrefix + e.message, SimplifyHint]
  }

  /** The lines written for a completion: its text, or the failure's message. */
  function ResponseLines(c: Call<string>): (lines: seq<string>)
    ensures c.Returned? ==> lines == [c.value]
    ensures c.Raised? ==> lines == FailureLines(c.exception)
  {
    match c
    case Returned(text) => [text]
    case Raised(e) => FailureLines(e)
  }

  /** A cancellation is reported as a timeout whatever its message says. */
  lemma CancellationIsTimeout(message: string)
    requires Contains(message, "429")
    ensures FailureLines(TaskCanceled(message)) == [TimeoutMessage]
    ensures FailureLines(Other(message)) == [RateLimitMessage]
  {
  }

  /** Retrieval keeps only scored hits, so building the prompt from them never throws. */
  lemma RetrievedAllScored(rows: seq<DbHelper.ResumeRow>, userQuery: string, complete: string -> Call<string>,
                           embed: string -> Call<seq<real>>, search: Search)
    ensures var r := RetrieveContext(rows, userQuery, complete, embed, search);
            r.Returned? ==> AllScored(r.value)
  {
    var r := RetrieveContext(rows, userQuery, complete, embed, search);
    if r.Returned? {
      forall i | 0 <= i < |r.value| ensures r.value[i].Score.Some? {
        assert r.value[i] in r.value;
      }
    }
  }

  /**
   * The lines written for a query, or the exception of the retrieval, which
   * GetResponseAsync does not catch.
   */
  function Response(rows: seq<DbHelper.ResumeRow>, userQuery: string, complete: string -> Call<string>,
                    embed: string -> Call<seq<real>>, search: Search, showScore: real -> string,
                    answer: string -> Call<string>): (r: Result<seq<string>>)
    ensures var retrieved := RetrieveContext(rows, userQuery, complete, embed, search);
            && (r.Failure? <==> retrieved.Raised?)
            && (r.Failure? ==> r.error == Unhandled(retrieved.exception))
  {
    RetrievedAllScored(rows, userQuery, complete, embed, search);
    match RetrieveContext(rows, userQuery, complete, embed, search)
    case Raised(e) => Failure(Unhandled(e))
    case Returned(resumes) => Success(ResponseLines(answer(Prompt(userQuery, Context(resumes, showScore)))))
  }

  /**
   * Once retrieval returns, the answer call's failures never escape: the query
   * gets the answer's text, or the one or two lines of the matching catch clause.
   */
  lemma AnswerFailureIsText(rows: seq<DbHelper.ResumeRow>, userQuery: string, complete: string -> Call<string>,
                            embed: string -> Call<seq<real>>, search: Search, showScore: real -> string,
                            answer: string -> Call<string>)
    requires RetrieveContext(rows, userQuery, complete, embed, search).Returned?
    ensures var resumes := RetrieveContext(rows, userQuery, complete, embed, search).value;
            var r := Response(rows, userQuery, complete, embed, search, showScore, answer);
            && AllScored(resumes)
            && var c := answer(Prompt(userQuery, Context(resumes, showScore)));
               && r.Success? && 1 <= |r.value| <= 2
               && (c.Returned? ==> r.value == [c.value])
               && (c.Raised? ==> r.value == FailureLines(c.exception))
  {
    RetrievedAllScored(rows, userQuery, complete, embed, search);
  }

  /**
   * GetResponseAsync: retrieve, build the prompt, complete it. An exception of
   * the retrieval propagates; the prompt is then always built, and a failure of
   * the answer call is reported as text, never propagated.
   */
  method GetResponse(rows: seq<DbHelper.ResumeRow>, userQuery: string, complete: string -> Call<string>,
                     embed: string -> Call<seq<real>>, search: Search, showScore: real -> string,
                     answer: string -> Call<string>) returns (output: Result<seq<string>>)
    ensures output == Response(rows, userQuery, complete, embed, search, showScore, answer)
  {
    var resumes := RetrieveContext(rows, userQuery, complete, embed, search);
    if resumes.Raised? {
      return Failure(Unhandled(resumes.exception));
    }
    RetrievedAllScored(rows, userQuery, complete, embed, search);
    var prompt := ConstructPrompt(userQuery, resumes.value, showScore);
    output := Success(ResponseLines(answer(prompt.value)));
  }
}
