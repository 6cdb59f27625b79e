/**
 * The memory-store facade over the 'embeddings' table: id choice and metadata
 * defaulting on save, batch upsert, search result mapping, nearest match,
 * per-collection delete and existence, the collection list, and the lookups
 * that never find anything.
 */
module PostgresMemoryStore {
  import opened Wrappers
  import opened Seqs
  import Ranking
  import Json
  import Guids
  import SqlHelper

  /** The part of a memory record's metadata the store fills in or reads. */
  datatype MemoryRecordMetadata = MemoryRecordMetadata(
    id: string,
    text: string,
    description: string,
    additionalMetadata: string)

  datatype MemoryRecord = MemoryRecord(metadata: MemoryRecordMetadata, embedding: seq<real>)

  datatype MemoryQueryResult = MemoryQueryResult(
    metadata: MemoryRecordMetadata,
    relevance: real,
    embedding: Option<seq<real>>)

  /** A null or empty key asks for a fresh Guid; any other key must parse as one. */
  function ChooseId(key: Option<string>, freshGuid: Guids.Guid): (r: Result<Guids.Guid>)
    ensures (key.None? || key.value == "") ==> r == Success(freshGuid)
    ensures r.Failure? ==> r.error == FormatError
  {
    if key.None? || key.value == "" then Success(freshGuid) else Guids.Parse(key.value)
  }

  /** A key that is a Guid's text selects that Guid, so the returned id is the key itself. */
  lemma ChooseIdOfGuidText(g: Guids.Guid, freshGuid: Guids.Guid)
    ensures ChooseId(Some(Guids.Format(g)), freshGuid) == Success(g)
  {
    Guids.ParseFormat(g);
  }

  /** Metadata stored when the caller gives none: the JSON object {"text": text}. */
  function StoredMetadata(metadata: Option<string>, text: string): (r: string)
    ensures metadata.Some? ==> r == metadata.value
  {
    metadata.GetOr(Json.SerializeText(text))
  }

  /** The defaulted metadata holds exactly the text, as the one string property "text". */
  lemma DefaultMetadataHoldsText(text: string)
    ensures var m := StoredMetadata(None, text);
            && m[..9] == "{\"text\":\"" && m[|m| - 2..] == "\"}"
            && '"' !in m[9..|m| - 2]
            && Json.Unescape(m[9..|m| - 2]) == Some(text)
  {
    var m := StoredMetadata(None, text);
    assert m[9..|m| - 2] == Json.Escape(text);
    Json.EscapeRoundTrip(text);
    Json.EscapeHasNoQuote(text);
  }

  /**
   * ExtractFromMetadata: the string value of a top-level property, or "" when the
   * text is not JSON, the root is not an object, the property is missing, or its
   * value is not a string (null included).
   */
  function ExtractFromMetadata(parse: Json.JsonParser, json: string, propertyName: string): (r: string)
    ensures (parse(json).Some? && parse(json).value.JObject? && propertyName in parse(json).value.fields
             && parse(json).value.fields[propertyName].JString?)
            ==> r == parse(json).value.fields[propertyName].s
    ensures r != "" ==> parse(json).Some? && parse(json).value.JObject? && propertyName in parse(json).value.fields
                        && parse(json).value.fields[propertyName] == Json.JString(r)
  {
    match parse(json)
    case Some(JObject(fields)) =>
      if propertyName in fields then
        match fields[propertyName]
        case JString(s) => s
        case _ => ""
      else ""
    case _ => ""
  }

  /** What SearchAsync makes of one search row. */
  function ToQueryResult(parse: Json.JsonParser, row: SqlHelper.SearchRow, withEmbeddings: bool): (r: MemoryQueryResult)
    ensures r.relevance == row.similarity
    ensures r.metadata.id == row.documentId && r.metadata.text == row.text
    ensures r.metadata.additionalMetadata == row.metadataJson
    ensures r.metadata.description == ExtractFromMetadata(parse, row.metadataJson, "fileName")
    ensures r.embedding.Some? <==> withEmbeddings
    ensures withEmbeddings ==> r.embedding.value == row.embedding
  {
    MemoryQueryResult(
      MemoryRecordMetadata(row.documentId, row.text, ExtractFromMetadata(parse, row.metadataJson, "fileName"), row.metadataJson),
      row.similarity,
      if withEmbeddings then Some(row.embedding) else None)
  }

  /** What GetNearestMatchesAsync makes of one search row. */
  function ToMatch(parse: Json.JsonParser, row: SqlHelper.SearchRow, withEmbeddings: bool): (m: (MemoryRecord, real))
    ensures m.1 == row.similarity && m.0.metadata.id == row.documentId && m.0.metadata.text == row.text
    ensures m.0.metadata.additionalMetadata == row.metadataJson
    ensures m.0.metadata.description == ExtractFromMetadata(parse, row.metadataJson, "fileName")
    ensures m.0.embedding == if withEmbeddings then row.embedding else []
  {
    (MemoryRecord(
       MemoryRecordMetadata(row.documentId, row.text, ExtractFromMetadata(parse, row.metadataJson, "fileName"), row.metadataJson),
       if withEmbeddings then row.embedding else []),
     row.similarity)
  }

  /** The id UpsertBatchAsync uses for a record: its own, or a fresh Guid's text when empty. */
  function BatchId(record: MemoryRecord, freshGuid: Guids.Guid): (id: string)
    ensures record.metadata.id != "" ==> id == record.metadata.id
  {
    if record.metadata.id == "" then Guids.Format(freshGuid) else record.metadata.id
  }

  /** An id made up for a record always parses, so only a caller-given id can be rejected. */
  lemma BatchIdParses(record: MemoryRecord, freshGuid: Guids.Guid)
    requires record.metadata.id == ""
    ensures Guids.Parse(BatchId(record, freshGuid)) == Success(freshGuid)
  {
    Guids.ParseFormat(freshGuid);
  }

  /**
   * What UpsertBatchAsync makes of one record: the row its insert stores under
   * the parsed id, or the error that ends the batch (the id's FormatException,
   * or the insert's).
   */
  function BatchAttempt(jsonb: Json.JsonParser, collection: string, record: MemoryRecord, freshGuid: Guids.Guid)
    : Result<SqlHelper.EmbeddingRow>
  {
    match Guids.Parse(BatchId(record, freshGuid))
    case Failure(e) => Failure(e)
    case Success(id) =>
      match SqlHelper.InsertCheck(jsonb, collection, record.metadata.text, record.embedding, record.metadata.additionalMetadata)
      case Fail(e) => Failure(e)
      case Pass => Success(SqlHelper.InsertedRow(jsonb, id, collection, record.metadata.text, record.embedding,
                                                 record.metadata.additionalMetadata))
  }

  /** One record's insert, given the record and the Guid drawn for it. */
  type Inserter = (MemoryRecord, Guids.Guid) -> Result<SqlHelper.EmbeddingRow>

  /** BatchAttempt against the given table's jsonb cast and collection. */
  function Batching(jsonb: Json.JsonParser, collection: string): Inserter
  {
    (record: MemoryRecord, freshGuid: Guids.Guid) => BatchAttempt(jsonb, collection, record, freshGuid)
  }

  /** The attempts of a batch, record by record, record k drawing fresh Guid number k. */
  function BatchAttempts(attempt: Inserter, records: seq<MemoryRecord>, freshGuid: nat -> Guids.Guid)
    : (rs: seq<Result<SqlHelper.EmbeddingRow>>)
    ensures |rs| == |records|
    ensures forall k :: 0 <= k < |records| ==> rs[k] == attempt(records[k], freshGuid(k))
  {
    seq(|records|, k requires 0 <= k < |records| => attempt(records[k], freshGuid(k)))
  }

  /** The ids of the first records of a batch, as UpsertBatchAsync yields them. */
  function BatchIds(records: seq<MemoryRecord>, freshGuid: nat -> Guids.Guid): (ids: seq<string>)
    ensures |ids| == |records|
    ensures forall k :: 0 <= k < |records| ==> ids[k] == BatchId(records[k], freshGuid(k))
  {
    seq(|records|, k requires 0 <= k < |records| => BatchId(records[k], freshGuid(k)))
  }

  /** One more record of a batch yields one more id. */
  lemma BatchIdsSnoc(records: seq<MemoryRecord>, freshGuid: nat -> Guids.Guid, i: nat)
    requires i < |records|
    ensures BatchIds(records[..i + 1], freshGuid) == BatchIds(records[..i], freshGuid) + [BatchId(records[i], freshGuid(i))]
  {
    assert BatchIds(records[..i + 1], freshGuid)[..i] == BatchIds(records[..i], freshGuid);
  }

  /**
   * A record fails exactly when its id is not a Guid (FormatException) or the
   * insert refuses the row, and then with that error.
   */
  lemma BatchAttemptCause(jsonb: Json.JsonParser, collection: string, record: MemoryRecord, freshGuid: Guids.Guid)
    ensures var r := BatchAttempt(jsonb, collection, record, freshGuid);
            var parsed := Guids.Parse(BatchId(record, freshGuid));
            var check := SqlHelper.InsertCheck(jsonb, collection, record.metadata.text, record.embedding,
                                               record.metadata.additionalMetadata);
            && (r.Success? <==> parsed.Success? && check.Pass?)
            && (parsed.Failure? ==> r == Failure(FormatError))
            && (parsed.Success? && check.Fail? ==> r == Failure(check.error))
  {
  }

  /** A stored row holds the record's text and embedding under the Guid its yielded id names. */
  lemma BatchRowOfId(jsonb: Json.JsonParser, collection: string, record: MemoryRecord, freshGuid: Guids.Guid)
    requires BatchAttempt(jsonb, collection, record, freshGuid).Success?
    ensures var row := BatchAttempt(jsonb, collection, record, freshGuid).value;
            && Guids.Parse(BatchId(record, freshGuid)) == Success(row.documentId)
            && row.text == record.metadata.text && row.embedding == record.embedding
            && Some(row.metadata) == jsonb(record.metadata.additionalMetadata)
  {
  }

  /**
   * A record without an id is refused only by the insert: with an accepted
   * text, vector and metadata it is stored under its fresh Guid.
   */
  lemma BatchRecordWithoutId(jsonb: Json.JsonParser, collection: string, record: MemoryRecord, freshGuid: Guids.Guid)
    requires record.metadata.id == ""
    ensures var check := SqlHelper.InsertCheck(jsonb, collection, record.metadata.text, record.embedding,
                                               record.metadata.additionalMetadata);
            && (check.Pass? ==> BatchAttempt(jsonb, collection, record, freshGuid).Success?
                                && BatchAttempt(jsonb, collection, record, freshGuid).value.documentId == freshGuid)
            && (check.Fail? ==> BatchAttempt(jsonb, collection, record, freshGuid) == Failure(check.error))
  {
    BatchIdParses(record, freshGuid);
  }

  /** Whether some row belongs to the collection. */
  function HasCollection(rows: seq<SqlHelper.EmbeddingRow>, collection: string): (b: bool)
    ensures b <==> exists i :: 0 <= i < |rows| && rows[i].collection == collection
  {
    if rows == [] then false
    else rows[0].collection == collection || HasCollection(rows[1..], collection)
  }

  /** The rows a per-collection DELETE leaves. */
  function OutsideCollection(collection: string): SqlHelper.EmbeddingRow -> bool
  {
    (r: SqlHelper.EmbeddingRow) => r.collection != collection
  }

  /** DELETE FROM embeddings WHERE collection = @collection. */
  function RemoveCollection(rows: seq<SqlHelper.EmbeddingRow>, collection: string): seq<SqlHelper.EmbeddingRow>
  {
    Filter(rows, OutsideCollection(collection))
  }

  /** After the delete the collection no longer exists. */
  lemma RemovedCollectionGone(rows: seq<SqlHelper.EmbeddingRow>, collection: string)
    ensures !HasCollection(RemoveCollection(rows, collection), collection)
  {
    var rest := RemoveCollection(rows, collection);
    forall i | 0 <= i < |rest|
      ensures rest[i].collection != collection
    {
      assert rest[i] in rest;
    }
  }

  /** The delete removes exactly the collection's rows: the rows of every other collection stay, in order. */
  lemma RemoveCollectionKeepsOthers(rows: seq<SqlHelper.EmbeddingRow>, collection: string, other: string)
    requires other != collection
    ensures Filter(RemoveCollection(rows, collection), SqlHelper.InCollection(other)) == Filter(rows, SqlHelper.InCollection(other))
  {
    var inO := SqlHelper.InCollection(other);
    FilterFilter(rows, OutsideCollection(collection), inO, inO);
  }

  /** So a search in any other collection is unaffected by the delete. */
  lemma RemoveCollectionKeepsOtherSearches(rows: seq<SqlHelper.EmbeddingRow>, collection: string, other: string,
                                           query: seq<real>, similarity: SqlHelper.Similarity, jsonbOut: SqlHelper.JsonbOutput,
                                           minRelevanceScore: real, limit: nat, retrieveEmbeddings: bool)
    requires other != collection
    ensures SqlHelper.SearchRows(RemoveCollection(rows, collection), other, query, similarity, jsonbOut, minRelevanceScore, limit, retrieveEmbeddings)
         == SqlHelper.SearchRows(rows, other, query, similarity, jsonbOut, minRelevanceScore, limit, retrieveEmbeddings)
  {
    var keep := SqlHelper.InCollection(other);
    var score := SqlHelper.Score(similarity, query);
    var cand := Ranking.Passes(keep, score, minRelevanceScore);
    FilterFilter(rows, OutsideCollection(collection), cand, cand);
    assert Ranking.Candidates(RemoveCollection(rows, collection), keep, score, minRelevanceScore)
        == Ranking.Candidates(rows, keep, score, minRelevanceScore);
  }

  /** And a search in the deleted collection finds nothing. */
  lemma SearchRemovedCollectionEmpty(rows: seq<SqlHelper.EmbeddingRow>, collection: string,
                                     query: seq<real>, similarity: SqlHelper.Similarity, jsonbOut: SqlHelper.JsonbOutput,
                                     minRelevanceScore: real, limit: nat, retrieveEmbeddings: bool)
    ensures SqlHelper.SearchRows(RemoveCollection(rows, collection), collection, query, similarity, jsonbOut, minRelevanceScore, limit, retrieveEmbeddings) == []
  {
    var rest := RemoveCollection(rows, collection);
    var keep := SqlHelper.InCollection(collection);
    var score := SqlHelper.Score(similarity, query);
    forall x | x in rest
      ensures !Ranking.Passes(keep, score, minRelevanceScore)(x)
    {
      assert OutsideCollection(collection)(x);
    }
    FilterNone(rest, Ranking.Passes(keep, score, minRelevanceScore));
  }

  class MemoryStore {
    /** The database the store's connection string names. */
    const db: SqlHelper.EmbeddingsTable

    constructor (db: SqlHelper.EmbeddingsTable)
      ensures this.db == db
    {
      this.db := db;
    }

    /**
     * SaveInformationAsync: chooses the id, defaults the metadata, inserts one row
     * and returns the id's text. A key that is not a Guid fails before anything is
     * stored; a row the insert refuses fails with the insert's error.
     */
    method SaveInformation(collection: string, key: Option<string>, text: string, embedding: seq<real>,
                           metadata: Option<string>, freshGuid: Guids.Guid) returns (r: Result<string>)
      modifies db
      ensures ChooseId(key, freshGuid).Failure? ==> r == Failure(FormatError) && db.rows == old(db.rows)
      ensures ChooseId(key, freshGuid).Success? ==>
        var id := ChooseId(key, freshGuid).value;
        match SqlHelper.InsertCheck(db.jsonb, collection, text, embedding, StoredMetadata(metadata, text))
        case Pass =>
          r == Success(Guids.Format(id)) &&
          db.rows == old(db.rows) + [SqlHelper.InsertedRow(db.jsonb, id, collection, text, embedding, StoredMetadata(metadata, text))]
        case Fail(e) => r == Failure(e) && db.rows == old(db.rows)
    {
      var id :- ChooseId(key, freshGuid);
      var metadataJson := StoredMetadata(metadata, text);
      var o := db.InsertEmbedding(id, collection, embedding, text, metadataJson);
      if o.Fail? {
        return Failure(o.error);
      }
      return Success(Guids.Format(id));
    }

    /** UpsertAsync: SaveInformationAsync with the record's id, text, embedding and additional metadata. */
    method Upsert(collection: string, record: MemoryRecord, freshGuid: Guids.Guid) returns (r: Result<string>)
      modifies db
      ensures ChooseId(Some(record.metadata.id), freshGuid).Failure? ==> r == Failure(FormatError) && db.rows == old(db.rows)
      ensures ChooseId(Some(record.metadata.id), freshGuid).Success? ==>
        var id := ChooseId(Some(record.metadata.id), freshGuid).value;
        var m := record.metadata;
        match SqlHelper.InsertCheck(db.jsonb, collection, m.text, record.embedding, m.additionalMetadata)
        case Pass =>
          r == Success(Guids.Format(id)) &&
          db.rows == old(db.rows) + [SqlHelper.InsertedRow(db.jsonb, id, collection, m.text, record.embedding, m.additionalMetadata)]
        case Fail(e) => r == Failure(e) && db.rows == old(db.rows)
    {
      r := SaveInformation(collection, Some(record.metadata.id), record.metadata.text, record.embedding,
                           Some(record.metadata.additionalMetadata), freshGuid);
    }

    /**
     * UpsertBatchAsync: one insert and one yielded id per record, in order. The
     * first record that fails ends the batch with its error; the records before
     * it stay stored and their ids stay yielded.
     */
    method UpsertBatch(collection: string, records: seq<MemoryRecord>, freshGuid: nat -> Guids.Guid)
      returns (ids: seq<string>, o: Outcome)
      modifies db
      ensures o == Through(BatchAttempts(Batching(db.jsonb, collection), records, freshGuid))
      ensures var attempts := BatchAttempts(Batching(db.jsonb, collection), records, freshGuid);
              ids == BatchIds(records[..FirstFailure(attempts)], freshGuid)
      ensures var attempts := BatchAttempts(Batching(db.jsonb, collection), records, freshGuid);
              db.rows == old(db.rows) + Values(attempts[..FirstFailure(attempts)])
    {
      ghost var attempts := BatchAttempts(Batching(db.jsonb, collection), records, freshGuid);
      ids := [];
      for i := 0 to |records|
        invariant ids == BatchIds(records[..i], freshGuid)
        invariant forall k :: 0 <= k < i ==> attempts[k].Success?
        invariant db.rows == old(db.rows) + Values(attempts[..i])
      {
        var id;
        id, o := UpsertNext(collection, records, freshGuid, i);
        if o.Fail? {
          FirstFailureIs(attempts, i);
          return;
        }
        ValuesSnoc(attempts, i);
        BatchIdsSnoc(records, freshGuid, i);
        ids := ids + [id];
      }
      FirstFailureIs(attempts, |records|);
      assert attempts[..|records|] == attempts;
      assert records[..|records|] == records;
      o := Pass;
    }

    /** One pass of UpsertBatchAsync's loop: record k's id is parsed and its row inserted. */
    method UpsertNext(collection: string, records: seq<MemoryRecord>, freshGuid: nat -> Guids.Guid, k: nat)
      returns (id: string, o: Outcome)
      requires k < |records|
      modifies db
      ensures id == BatchId(records[k], freshGuid(k))
      ensures var attempt := BatchAttempt(db.jsonb, collection, records[k], freshGuid(k));
              && (attempt.Success? ==> o == Pass && db.rows == old(db.rows) + [attempt.value])
              && (attempt.Failure? ==> o == Fail(attempt.error) && db.rows == old(db.rows))
    {
      var record := records[k];
      id := BatchId(record, freshGuid(k));
      var parsed := Guids.Parse(id);
      if parsed.Failure? {
        return id, Fail(parsed.error);
      }
      o := db.InsertEmbedding(parsed.value, collection, record.embedding, record.metadata.text,
                              record.metadata.additionalMetadata);
    }

    /**
     * SearchAsync: one result per search row, same order, relevance copied,
     * embedding only on request; the search's own failures are passed on.
     */
    method Search(collection: string, embedding: seq<real>, similarity: SqlHelper.Similarity, limit: int,
                  minRelevanceScore: real, withEmbeddings: bool) returns (r: Result<seq<MemoryQueryResult>>)
      ensures r.Failure? <==> SqlHelper.SearchCheck(db.rows, collection, embedding, limit).Fail?
      ensures r.Failure? ==> r.error == SqlHelper.SearchCheck(db.rows, collection, embedding, limit).error
      ensures r.Success? ==>
        var rows := SqlHelper.SearchRows(db.rows, collection, embedding, similarity, db.jsonbOut, minRelevanceScore, limit, withEmbeddings);
        |r.value| == |rows| && forall i :: 0 <= i < |rows| ==> r.value[i] == ToQueryResult(db.jsonb, rows[i], withEmbeddings)
    {
      var searchResults :- db.SearchEmbeddings(collection, embedding, similarity, minRelevanceScore, limit, withEmbeddings);
      var results: seq<MemoryQueryResult> := [];
      for i := 0 to |searchResults|
        invariant |results| == i
        invariant forall k :: 0 <= k < i ==> results[k] == ToQueryResult(db.jsonb, searchResults[k], withEmbeddings)
      {
        results := results + [ToQueryResult(db.jsonb, searchResults[i], withEmbeddings)];
      }
      return Success(results);
    }

    /** GetAsync: not implemented by the store; always null. */
    function Get(collection: string, key: string, withEmbedding: bool): (r: Option<MemoryRecord>)
      ensures r.None?
    {
      None
    }

    /** GetBatchAsync: yields the records GetAsync finds, which is none. */
    method GetBatch(collection: string, keys: seq<string>, withEmbeddings: bool) returns (records: seq<MemoryRecord>)
      ensures records == []
    {
      records := [];
      for i := 0 to |keys|
        invariant records == []
      {
        var record := Get(collection, keys[i], withEmbeddings);
        match record {
          case Some(r) => records := records + [r];
          case None =>
        }
      }
    }

    /** GetNearestMatchesAsync: the search rows as (record, relevance) pairs, same order; the search's failures are passed on. */
    method GetNearestMatches(collection: string, embedding: seq<real>, similarity: SqlHelper.Similarity, limit: int,
                             minRelevanceScore: real, withEmbeddings: bool) returns (r: Result<seq<(MemoryRecord, real)>>)
      ensures r.Failure? <==> SqlHelper.SearchCheck(db.rows, collection, embedding, limit).Fail?
      ensures r.Failure? ==> r.error == SqlHelper.SearchCheck(db.rows, collection, embedding, limit).error
      ensures r.Success? ==>
        var rows := SqlHelper.SearchRows(db.rows, collection, embedding, similarity, db.jsonbOut, minRelevanceScore, limit, withEmbeddings);
        |r.value| == |rows| && forall i :: 0 <= i < |rows| ==> r.value[i] == ToMatch(db.jsonb, rows[i], withEmbeddings)
    {
      var searchResults :- db.SearchEmbeddings(collection, embedding, similarity, minRelevanceScore, limit, withEmbeddings);
      var matches: seq<(MemoryRecord, real)> := [];
      for i := 0 to |searchResults|
        invariant |matches| == i
        invariant forall k :: 0 <= k < i ==> matches[k] == ToMatch(db.jsonb, searchResults[k], withEmbeddings)
      {
        matches := matches + [ToMatch(db.jsonb, searchResults[i], withEmbeddings)];
      }
      return Success(matches);
    }

    /**
     * GetNearestMatchAsync: the first match of a limit-1 search, or null when
     * nothing qualifies; the search's failures are passed on.
     */
    method GetNearestMatch(collection: string, embedding: seq<real>, similarity: SqlHelper.Similarity,
                           minRelevanceScore: real, withEmbedding: bool) returns (r: Result<Option<(MemoryRecord, real)>>)
      ensures r.Failure? <==> SqlHelper.SearchCheck(db.rows, collection, embedding, 1).Fail?
      ensures r.Failure? ==> r.error == SqlHelper.SearchCheck(db.rows, collection, embedding, 1).error
      ensures r.Success? ==>
        var rows := SqlHelper.SearchRows(db.rows, collection, embedding, similarity, db.jsonbOut, minRelevanceScore, 1, withEmbedding);
        && (r.value.None? <==> rows == [])
        && (r.value.Some? ==> r.value.value == ToMatch(db.jsonb, rows[0], withEmbedding))
    {
      var matches :- GetNearestMatches(collection, embedding, similarity, 1, minRelevanceScore, withEmbedding);
      if |matches| > 0 {
        return Success(Some(matches[0]));
      }
      return Success(None);
    }

    /**
     * DeleteCollectionAsync: removes the collection's rows and no others. The name
     * is sent as a text parameter, which PostgreSQL refuses when it holds a NUL.
     */
    method DeleteCollection(collection: string) returns (o: Outcome)
      modifies db
      ensures o.Fail? <==> !SqlHelper.NulFree(collection)
      ensures o.Fail? ==> o.error == NulCharacter("collection") && db.rows == old(db.rows)
      ensures o.Pass? ==> db.rows == RemoveCollection(old(db.rows), collection)
    {
      if !SqlHelper.NulFree(collection) {
        return Fail(NulCharacter("collection"));
      }
      db.rows := RemoveCollection(db.rows, collection);
      o := Pass;
    }

    /** DoesCollectionExistAsync: SELECT EXISTS(... WHERE collection = @collection), refused for a NUL in the name. */
    function DoesCollectionExist(collection: string): (r: Result<bool>)
      reads db
      ensures r.Failure? <==> !SqlHelper.NulFree(collection)
      ensures r.Failure? ==> r.error == NulCharacter("collection")
      ensures r.Success? ==> (r.value <==> exists i :: 0 <= i < |db.rows| && db.rows[i].collection == collection)
    {
      if !SqlHelper.NulFree(collection) then Failure(NulCharacter("collection"))
      else Success(HasCollection(db.rows, collection))
    }

    /** GetCollectionsAsync: SELECT DISTINCT collection, each name once. */
    method GetCollections() returns (names: seq<string>)
      ensures forall c :: c in names <==> HasCollection(db.rows, c)
      ensures forall i, j :: 0 <= i < j < |names| ==> names[i] != names[j]
    {
      names := [];
      var rows := db.rows;
      for i := 0 to |rows|
        invariant forall c :: c in names <==> HasCollection(rows[..i], c)
        invariant forall a, b :: 0 <= a < b < |names| ==> names[a] != names[b]
      {
        assert rows[..i + 1] == rows[..i] + [rows[i]];
        if rows[i].collection !in names {
          names := names + [rows[i].collection];
        }
      }
      assert rows[..|rows|] == rows;
    }
  }

  /** The nearest match is a row of the collection, above the minimum, that no row of the collection beats. */
  lemma NearestMatchIsBest(rows: seq<SqlHelper.EmbeddingRow>, collection: string, query: seq<real>,
                           similarity: SqlHelper.Similarity, jsonbOut: SqlHelper.JsonbOutput, minRelevanceScore: real,
                           retrieveEmbeddings: bool, other: SqlHelper.EmbeddingRow)
    requires other in rows && other.collection == collection && similarity(other.embedding, query) > minRelevanceScore
    ensures var found := SqlHelper.SearchRows(rows, collection, query, similarity, jsonbOut, minRelevanceScore, 1, retrieveEmbeddings);
            |found| == 1 && found[0].similarity >= similarity(other.embedding, query)
  {
    var sel := SqlHelper.Selected(rows, collection, query, similarity, minRelevanceScore, 1);
    var cands := SqlHelper.Candidates(rows, collection, query, similarity, minRelevanceScore);
    SqlHelper.QualifyingRowIsCandidate(rows, collection, query, similarity, minRelevanceScore, other);
    SqlHelper.SearchRanked(rows, collection, query, similarity, jsonbOut, minRelevanceScore, 1, retrieveEmbeddings);
    Ranking.RankedFirstIsBest(sel, cands, SqlHelper.Score(similarity, query), 1, other);
  }
}
