/**
 * The 'embeddings' table (document_id, collection, text, embedding, metadata)
 * and the three statements run against it: INSERT of one row, the similarity
 * SELECT, and DELETE of every row.
 */
module SqlHelper {
  import opened Wrappers
  import opened Seqs
  import Ranking
  import Json
  import Guids

  /** The declared width of the 'embedding VECTOR(1536)' column. */
  const Dimensions: nat := 1536

  /** The declared length of the 'collection VARCHAR(100)' column. */
  const CollectionLength: nat := 100

  /** pgvector's bound on the number of dimensions of any vector value. */
  const MaxVectorDimensions: nat := 16000

  /**
   * One stored row. The metadata column is jsonb, so it holds the parsed JSON
   * value, not the text it was given. The SERIAL id and the created_at
   * timestamp are never read back.
   */
  datatype EmbeddingRow = EmbeddingRow(
    documentId: Guids.Guid,
    collection: string,
    text: string,
    embedding: seq<real>,
    metadata: Json.JsonValue)

  /** One row of the search result, as the reader loop builds it. */
  datatype SearchRow = SearchRow(
    documentId: string,
    text: string,
    embedding: seq<real>,
    metadataJson: string,
    similarity: real)

  /** '1 - (embedding <=> query)': the similarity of a stored vector to the query vector. */
  type Similarity = (seq<real>, seq<real>) -> real

  /** PostgreSQL's jsonb output function: the text a jsonb value reads back as. */
  type JsonbOutput = Json.JsonValue -> string

  /** PostgreSQL refuses the NUL character in any text value it is sent. */
  predicate NulFree(s: string)
  {
    '\0' !in s
  }

  /**
   * Assignment to a VARCHAR(n) column: a value of at most n characters is kept;
   * a longer one is cut to n characters when only spaces are cut, and refused otherwise.
   */
  function VarChar(n: nat, s: string): (r: Option<string>)
    ensures r.Some? <==> |s| <= n || forall i :: n <= i < |s| ==> s[i] == ' '
    ensures |s| <= n ==> r == Some(s)
    ensures r.Some? ==> |r.value| <= n && r.value <= s && (forall i :: |r.value| <= i < |s| ==> s[i] == ' ')
  {
    if |s| <= n then Some(s)
    else if forall i :: n <= i < |s| ==> s[i] == ' ' then Some(s[..n])
    else None
  }

  /**
   * Whether the INSERT is accepted, and which error it raises otherwise: every text
   * parameter must be free of NUL, the collection must fit VARCHAR(100), the vector
   * must have the column's width and the metadata must cast to jsonb.
   */
  function InsertCheck(jsonb: Json.JsonParser, collection: string, text: string, embedding: seq<real>,
                       metadataJson: string): (o: Outcome)
    ensures o.Pass? <==> && NulFree(collection) && NulFree(text) && NulFree(metadataJson)
                         && VarChar(CollectionLength, collection).Some?
                         && |embedding| == Dimensions && jsonb(metadataJson).Some?
    ensures o.Fail? ==> || (o.error == NulCharacter("collection") && !NulFree(collection))
                        || (o.error == NulCharacter("text") && !NulFree(text))
                        || (o.error == NulCharacter("metadata") && !NulFree(metadataJson))
                        || (o.error == TooLong("collection") && VarChar(CollectionLength, collection).None?)
                        || (o.error == DimensionMismatch(|embedding|) && |embedding| != Dimensions)
                        || (o.error == InvalidJson && jsonb(metadataJson).None?)
  {
    if !NulFree(collection) then Fail(NulCharacter("collection"))
    else if !NulFree(text) then Fail(NulCharacter("text"))
    else if !NulFree(metadataJson) then Fail(NulCharacter("metadata"))
    else if VarChar(CollectionLength, collection).None? then Fail(TooLong("collection"))
    else if |embedding| != Dimensions then Fail(DimensionMismatch(|embedding|))
    else if jsonb(metadataJson).None? then Fail(InvalidJson)
    else Pass
  }

  /** The row an accepted INSERT stores: the collection as VARCHAR(100) keeps it, the metadata as jsonb parses it. */
  function InsertedRow(jsonb: Json.JsonParser, documentId: Guids.Guid, collection: string, text: string,
                       embedding: seq<real>, metadataJson: string): (r: EmbeddingRow)
    requires InsertCheck(jsonb, collection, text, embedding, metadataJson).Pass?
    ensures r.documentId == documentId && r.text == text && r.embedding == embedding
    ensures r.collection <= collection && |r.collection| <= CollectionLength
    ensures |collection| <= CollectionLength ==> r.collection == collection
    ensures Some(r.metadata) == jsonb(metadataJson)
  {
    EmbeddingRow(documentId, VarChar(CollectionLength, collection).value, text, embedding, jsonb(metadataJson).value)
  }

  /** Whether '@embedding::vector' accepts the query: at least one and at most 16000 dimensions. */
  predicate IsVector(v: seq<real>)
  {
    0 < |v| <= MaxVectorDimensions
  }

  /** Some stored row of the collection has a vector of another dimension than the query's. */
  predicate HasMismatchedRow(rows: seq<EmbeddingRow>, collection: string, query: seq<real>)
  {
    exists i :: 0 <= i < |rows| && rows[i].collection == collection && |rows[i].embedding| != |query|
  }

  /**
   * Whether the similarity SELECT runs to completion, and which error it raises
   * otherwise: the collection text must be free of NUL, the query must cast to a
   * vector, LIMIT must not be negative, and '<=>' refuses two vectors of different
   * dimensions, which it meets on any row of the collection when the query's
   * dimension is not the stored one.
   */
  function SearchCheck(rows: seq<EmbeddingRow>, collection: string, query: seq<real>, limit: int): (o: Outcome)
    ensures o.Pass? <==> && NulFree(collection) && IsVector(query) && limit >= 0
                         && !HasMismatchedRow(rows, collection, query)
    ensures o.Fail? ==> || (o.error == NulCharacter("collection") && !NulFree(collection))
                        || (o.error == DimensionMismatch(|query|) && (!IsVector(query) || HasMismatchedRow(rows, collection, query)))
                        || (o.error == NegativeLimit && limit < 0)
  {
    if !NulFree(collection) then Fail(NulCharacter("collection"))
    else if !IsVector(query) then Fail(DimensionMismatch(|query|))
    else if limit < 0 then Fail(NegativeLimit)
    else if HasMismatchedRow(rows, collection, query) then Fail(DimensionMismatch(|query|))
    else Pass
  }

  /** 'WHERE collection = @collection' */
  function InCollection(collection: string): EmbeddingRow -> bool
  {
    (r: EmbeddingRow) => r.collection == collection
  }

  /** The similarity column of the SELECT. */
  function Score(similarity: Similarity, query: seq<real>): EmbeddingRow -> real
  {
    (r: EmbeddingRow) => similarity(r.embedding, query)
  }

  /** The rows the WHERE clause lets through, in storage order. */
  function Candidates(rows: seq<EmbeddingRow>, collection: string, query: seq<real>, similarity: Similarity,
                      minRelevanceScore: real): seq<EmbeddingRow>
  {
    Ranking.Candidates(rows, InCollection(collection), Score(similarity, query), minRelevanceScore)
  }

  /** The rows the SELECT returns, in the order it returns them. */
  function Selected(rows: seq<EmbeddingRow>, collection: string, query: seq<real>, similarity: Similarity,
                    minRelevanceScore: real, limit: nat): seq<EmbeddingRow>
  {
    Ranking.Select(rows, InCollection(collection), Score(similarity, query), minRelevanceScore, limit)
  }

  /** What the reader loop makes of one selected row; the metadata is read back through jsonb's output function. */
  function ToSearchRow(r: EmbeddingRow, query: seq<real>, similarity: Similarity, jsonbOut: JsonbOutput,
                       retrieveEmbeddings: bool): SearchRow
  {
    SearchRow(Guids.Format(r.documentId), r.text, if retrieveEmbeddings then r.embedding else [],
              jsonbOut(r.metadata), similarity(r.embedding, query))
  }

  /** The list SearchEmbeddings returns when the statement runs. */
  function SearchRows(rows: seq<EmbeddingRow>, collection: string, query: seq<real>, similarity: Similarity,
                      jsonbOut: JsonbOutput, minRelevanceScore: real, limit: nat, retrieveEmbeddings: bool): seq<SearchRow>
  {
    var sel := Selected(rows, collection, query, similarity, minRelevanceScore, limit);
    seq(|sel|, i requires 0 <= i < |sel| => ToSearchRow(sel[i], query, similarity, jsonbOut, retrieveEmbeddings))
  }

  class EmbeddingsTable {
    var rows: seq<EmbeddingRow>
    /** PostgreSQL's jsonb input function, used by the '@metadata::jsonb' cast. */
    const jsonb: Json.JsonParser
    /** PostgreSQL's jsonb output function, used when the metadata column is read as text. */
    const jsonbOut: JsonbOutput

    /** A freshly created, empty table. */
    constructor (jsonb: Json.JsonParser, jsonbOut: JsonbOutput)
      ensures rows == [] && this.jsonb == jsonb && this.jsonbOut == jsonbOut
    {
      rows := [];
      this.jsonb := jsonb;
      this.jsonbOut := jsonbOut;
    }

    /** INSERT INTO embeddings: one row appended on success, nothing changed on failure. */
    method InsertEmbedding(documentId: Guids.Guid, collection: string, embedding: seq<real>,
                           text: string, metadataJson: string) returns (o: Outcome)
      modifies this
      ensures o == InsertCheck(jsonb, collection, text, embedding, metadataJson)
      ensures o.Pass? ==> rows == old(rows) + [InsertedRow(jsonb, documentId, collection, text, embedding, metadataJson)]
      ensures o.Fail? ==> rows == old(rows)
    {
      o := InsertCheck(jsonb, collection, text, embedding, metadataJson);
      if o.Pass? {
        rows := rows + [InsertedRow(jsonb, documentId, collection, text, embedding, metadataJson)];
      }
    }

    /**
     * The similarity SELECT followed by the reader loop. A read-only statement:
     * the method modifies nothing.
     */
    method SearchEmbeddings(collection: string, queryEmbedding: seq<real>, similarity: Similarity,
                            minRelevanceScore: real, limit: int, retrieveEmbeddings: bool)
      returns (r: Result<seq<SearchRow>>)
      ensures r.Failure? <==> SearchCheck(rows, collection, queryEmbedding, limit).Fail?
      ensures r.Failure? ==> r.error == SearchCheck(rows, collection, queryEmbedding, limit).error
      ensures r.Success? ==> limit >= 0 && r.value == SearchRows(rows, collection, queryEmbedding, similarity, jsonbOut,
                                                                 minRelevanceScore, limit, retrieveEmbeddings)
    {
      var check := SearchCheck(rows, collection, queryEmbedding, limit);
      if check.Fail? {
        return Failure(check.error);
      }
      var selected := Selected(rows, collection, queryEmbedding, similarity, minRelevanceScore, limit);
      var results: seq<SearchRow> := [];
      var i := 0;
      while i < |selected|
        invariant 0 <= i <= |selected|
        invariant |results| == i
        invariant forall k :: 0 <= k < i ==>
          results[k] == ToSearchRow(selected[k], queryEmbedding, similarity, jsonbOut, retrieveEmbeddings)
      {
        var row := selected[i];
        var docEmbedding := if retrieveEmbeddings then row.embedding else [];
        var result := SearchRow(Guids.Format(row.documentId), row.text, docEmbedding,
                                jsonbOut(row.metadata), similarity(row.embedding, queryEmbedding));
        assert result == ToSearchRow(row, queryEmbedding, similarity, jsonbOut, retrieveEmbeddings);
        results := results + [result];
        i := i + 1;
      }
      return Success(results);
    }

    /** DELETE FROM embeddings: every row, whatever its collection; returns the count removed. */
    method DeleteEmbeddings() returns (deleted: nat)
      modifies this
      ensures rows == [] && deleted == |old(rows)|
    {
      deleted := |rows|;
      rows := [];
    }
  }

  /**
   * Every returned row comes from a stored row of the requested collection, scoring
   * strictly above the minimum; its metadata is the stored jsonb value's output text.
   */
  lemma SearchFiltersRows(rows: seq<EmbeddingRow>, collection: string, query: seq<real>, similarity: Similarity,
                          jsonbOut: JsonbOutput, minRelevanceScore: real, limit: nat, retrieveEmbeddings: bool, i: nat)
    requires i < |SearchRows(rows, collection, query, similarity, jsonbOut, minRelevanceScore, limit, retrieveEmbeddings)|
    ensures var sel := Selected(rows, collection, query, similarity, minRelevanceScore, limit);
            var r := SearchRows(rows, collection, query, similarity, jsonbOut, minRelevanceScore, limit, retrieveEmbeddings)[i];
            && sel[i] in rows && sel[i].collection == collection
            && r.similarity > minRelevanceScore
            && r.documentId == Guids.Format(sel[i].documentId) && r.text == sel[i].text
            && r.metadataJson == jsonbOut(sel[i].metadata)
            && r.embedding == (if retrieveEmbeddings then sel[i].embedding else [])
  {
    var sel := Selected(rows, collection, query, similarity, minRelevanceScore, limit);
    Ranking.SelectKeeps(rows, InCollection(collection), Score(similarity, query), minRelevanceScore, limit, sel[i]);
  }

  /** A stored row of the collection scoring above the minimum is one the WHERE clause lets through. */
  lemma QualifyingRowIsCandidate(rows: seq<EmbeddingRow>, collection: string, query: seq<real>, similarity: Similarity,
                                 minRelevanceScore: real, r: EmbeddingRow)
    requires r in rows && r.collection == collection && similarity(r.embedding, query) > minRelevanceScore
    ensures r in Candidates(rows, collection, query, similarity, minRelevanceScore)
  {
    assert Ranking.Passes(InCollection(collection), Score(similarity, query), minRelevanceScore)(r);
  }

  /** Results come best first, at most 'limit' of them, and no qualifying row left out beats one returned. */
  lemma SearchRanked(rows: seq<EmbeddingRow>, collection: string, query: seq<real>, similarity: Similarity,
                     jsonbOut: JsonbOutput, minRelevanceScore: real, limit: nat, retrieveEmbeddings: bool)
    ensures var rs := SearchRows(rows, collection, query, similarity, jsonbOut, minRelevanceScore, limit, retrieveEmbeddings);
            var candidates := Candidates(rows, collection, query, similarity, minRelevanceScore);
            && (forall i, j :: 0 <= i < j < |rs| ==> rs[i].similarity >= rs[j].similarity)
            && |rs| == (if limit < |candidates| then limit else |candidates|)
            && Ranking.IsRanked(Selected(rows, collection, query, similarity, minRelevanceScore, limit),
                                candidates, Score(similarity, query), limit)
  {
    var keep, score := InCollection(collection), Score(similarity, query);
    Ranking.SelectIsRanked(rows, keep, score, minRelevanceScore, limit);
    var sel := Selected(rows, collection, query, similarity, minRelevanceScore, limit);
    var rs := SearchRows(rows, collection, query, similarity, jsonbOut, minRelevanceScore, limit, retrieveEmbeddings);
    assert Ranking.SortedDesc(sel, score);
    forall i, j | 0 <= i < j < |rs|
      ensures rs[i].similarity >= rs[j].similarity
    {
      assert rs[i].similarity == score(sel[i]) && rs[j].similarity == score(sel[j]);
    }
  }

  /** Raising the minimum relevance only cuts the result list short. */
  lemma SearchThresholdMonotone(rows: seq<EmbeddingRow>, collection: string, query: seq<real>, similarity: Similarity,
                                jsonbOut: JsonbOutput, lo: real, hi: real, limit: nat, retrieveEmbeddings: bool)
    requires lo <= hi
    ensures SearchRows(rows, collection, query, similarity, jsonbOut, hi, limit, retrieveEmbeddings)
         <= SearchRows(rows, collection, query, similarity, jsonbOut, lo, limit, retrieveEmbeddings)
  {
    Ranking.ThresholdMonotone(rows, InCollection(collection), Score(similarity, query), lo, hi, limit);
  }

  /** After DELETE FROM embeddings every search runs, whatever the query's dimension, and finds nothing. */
  lemma SearchAfterDeleteEmpty(collection: string, query: seq<real>, similarity: Similarity, jsonbOut: JsonbOutput,
                               minRelevanceScore: real, limit: nat, retrieveEmbeddings: bool)
    ensures !HasMismatchedRow([], collection, query)
    ensures SearchRows([], collection, query, similarity, jsonbOut, minRelevanceScore, limit, retrieveEmbeddings) == []
  {
  }

  /** Rows stored by accepted inserts all have the column's width, so only a query of another width can meet a mismatch. */
  lemma MismatchNeedsOtherWidth(rows: seq<EmbeddingRow>, collection: string, query: seq<real>)
    requires forall i :: 0 <= i < |rows| ==> |rows[i].embedding| == Dimensions
    ensures HasMismatchedRow(rows, collection, query) <==>
            |query| != Dimensions && exists i :: 0 <= i < |rows| && rows[i].collection == collection
  {
  }
}
