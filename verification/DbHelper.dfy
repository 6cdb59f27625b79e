/**
 * The 'resumes' table (id BIGINT PRIMARY KEY, filename, content and
 * content_embedding NOT NULL, tags nullable) with its INSERT and DELETE, the
 * insert-or-replace the vector-store connector runs against the same table,
 * and the search helper of the same class, which reads the 'embeddings' table.
 */
module DbHelper {
  import opened Wrappers
  import R = Resume
  import SqlHelper

  /** Range of the C# 'ulong' parameter. */
  type UInt64 = x: nat | x < 0x1_0000_0000_0000_0000

  /** Bounds of the BIGINT key column. */
  const BigIntMin: int := -0x8000_0000_0000_0000
  const BigIntMax: nat := 0x7FFF_FFFF_FFFF_FFFF

  datatype ResumeRow = ResumeRow(
    id: int,
    filename: string,
    content: string,
    contentEmbedding: seq<real>,
    tags: seq<string>)

  predicate HasKey(rows: seq<ResumeRow>, id: int)
  {
    exists i :: 0 <= i < |rows| && rows[i].id == id
  }

  /** No two rows share a key. */
  ghost predicate UniqueKeys(rows: seq<ResumeRow>)
  {
    forall i, j :: 0 <= i < j < |rows| ==> rows[i].id != rows[j].id
  }

  /** What the table's constraints guarantee of its rows. */
  ghost predicate Constrained(rows: seq<ResumeRow>)
  {
    && UniqueKeys(rows)
    && (forall i :: 0 <= i < |rows| ==>
          BigIntMin <= rows[i].id <= BigIntMax && |rows[i].contentEmbedding| == SqlHelper.Dimensions)
  }

  /** None of the strings of a TEXT[] value holds the NUL character. */
  predicate AllNulFree(ss: seq<string>)
  {
    forall i :: 0 <= i < |ss| ==> SqlHelper.NulFree(ss[i])
  }

  /**
   * Whether the INSERT passes the parameters, the column types and the
   * constraints, and which error it raises otherwise.
   */
  function InsertResumeCheck(rows: seq<ResumeRow>, id: UInt64, fileName: Option<string>, content: Option<string>,
                             contentEmbedding: seq<real>, tags: seq<string>): (o: Outcome)
    ensures o.Pass? <==> && fileName.Some? && content.Some?
                         && SqlHelper.NulFree(fileName.value) && SqlHelper.NulFree(content.value) && AllNulFree(tags)
                         && id <= BigIntMax && |contentEmbedding| == SqlHelper.Dimensions && !HasKey(rows, id)
    ensures o.Fail? ==> || (o.error == NullValue("filename") && fileName.None?)
                        || (o.error == NullValue("content") && content.None?)
                        || (o.error == NulCharacter("filename") && fileName.Some? && !SqlHelper.NulFree(fileName.value))
                        || (o.error == NulCharacter("content") && content.Some? && !SqlHelper.NulFree(content.value))
                        || (o.error == NulCharacter("tags") && !AllNulFree(tags))
                        || (o.error == OutOfRange && id > BigIntMax)
                        || (o.error == DimensionMismatch(|contentEmbedding|) && |contentEmbedding| != SqlHelper.Dimensions)
                        || (o.error == DuplicateKey && HasKey(rows, id))
  {
    if fileName.None? then Fail(NullValue("filename"))
    else if content.None? then Fail(NullValue("content"))
    else if !SqlHelper.NulFree(fileName.value) then Fail(NulCharacter("filename"))
    else if !SqlHelper.NulFree(content.value) then Fail(NulCharacter("content"))
    else if !AllNulFree(tags) then Fail(NulCharacter("tags"))
    else if id > BigIntMax then Fail(OutOfRange)
    else if |contentEmbedding| != SqlHelper.Dimensions then Fail(DimensionMismatch(|contentEmbedding|))
    else if HasKey(rows, id) then Fail(DuplicateKey)
    else Pass
  }

  /**
   * Whether the connector's upsert of a record passes the column types and
   * constraints: its texts free of NUL, and an embedding present with the column's
   * width. A 'long' key always fits BIGINT, and an existing key is replaced, not refused.
   */
  function UpsertCheck(record: R.Resume): (o: Outcome)
    ensures o.Pass? <==> && SqlHelper.NulFree(record.FileName) && SqlHelper.NulFree(record.Content)
                         && AllNulFree(record.Tags)
                         && record.ContentEmbedding.Some? && |record.ContentEmbedding.value| == SqlHelper.Dimensions
    ensures o.Fail? ==> || (o.error == NulCharacter("filename") && !SqlHelper.NulFree(record.FileName))
                        || (o.error == NulCharacter("content") && !SqlHelper.NulFree(record.Content))
                        || (o.error == NulCharacter("tags") && !AllNulFree(record.Tags))
                        || (o.error == NullValue("content_embedding") && record.ContentEmbedding.None?)
                        || (record.ContentEmbedding.Some? && o.error == DimensionMismatch(|record.ContentEmbedding.value|)
                            && |record.ContentEmbedding.value| != SqlHelper.Dimensions)
  {
    if !SqlHelper.NulFree(record.FileName) then Fail(NulCharacter("filename"))
    else if !SqlHelper.NulFree(record.Content) then Fail(NulCharacter("content"))
    else if !AllNulFree(record.Tags) then Fail(NulCharacter("tags"))
    else if record.ContentEmbedding.None? then Fail(NullValue("content_embedding"))
    else if |record.ContentEmbedding.value| != SqlHelper.Dimensions then Fail(DimensionMismatch(|record.ContentEmbedding.value|))
    else Pass
  }

  /** The row a record is stored as, column by column (a record that passes UpsertCheck has an embedding). */
  function RowOf(record: R.Resume): (row: ResumeRow)
    ensures row.id == record.Id && row.filename == record.FileName && row.content == record.Content
    ensures row.tags == record.Tags
    ensures record.ContentEmbedding.Some? ==> row.contentEmbedding == record.ContentEmbedding.value
  {
    ResumeRow(record.Id, record.FileName, record.Content, record.ContentEmbedding.GetOr([]), record.Tags)
  }

  /** INSERT ... ON CONFLICT (id) DO UPDATE: the row with the same key is replaced in place, or the row is added. */
  function Upserted(rows: seq<ResumeRow>, row: ResumeRow): (rs: seq<ResumeRow>)
    ensures row in rs
  {
    if rows == [] then [row]
    else if rows[0].id == row.id then [row] + rows[1..]
    else [rows[0]] + Upserted(rows[1..], row)
  }

  /** The rows after the first of a table with unique keys have unique keys, none of them the first row's. */
  lemma TailUnique(rows: seq<ResumeRow>)
    requires rows != [] && UniqueKeys(rows)
    ensures UniqueKeys(rows[1..])
    ensures forall r :: r in rows[1..] ==> r.id != rows[0].id
  {
    var rest := rows[1..];
    forall i, j | 0 <= i < j < |rest| ensures rest[i].id != rest[j].id {
      assert rest[i] == rows[i + 1] && rest[j] == rows[j + 1];
    }
    forall r | r in rest ensures r.id != rows[0].id {
      var j :| 0 <= j < |rest| && rest[j] == r;
      assert rows[j + 1] == r;
    }
  }

  /** A row whose key no other row has can be put in front of rows with unique keys. */
  lemma ConsUnique(row: ResumeRow, rows: seq<ResumeRow>)
    requires UniqueKeys(rows) && forall r :: r in rows ==> r.id != row.id
    ensures UniqueKeys([row] + rows)
  {
    var rs := [row] + rows;
    forall i, j | 0 <= i < j < |rs| ensures rs[i].id != rs[j].id {
      assert rs[j] == rows[j - 1];
      if i > 0 {
        assert rs[i] == rows[i - 1];
      }
    }
  }

  /**
   * With unique keys, the upserted table holds the new row and every old row of
   * another key, and nothing else; its keys stay unique.
   */
  lemma {:induction false} UpsertedContents(rows: seq<ResumeRow>, row: ResumeRow)
    requires UniqueKeys(rows)
    ensures UniqueKeys(Upserted(rows, row))
    ensures forall r :: r in Upserted(rows, row) <==> r == row || (r in rows && r.id != row.id)
  {
    if rows != [] {
      var rest := rows[1..];
      TailUnique(rows);
      assert forall r :: r in rows <==> r == rows[0] || r in rest;
      if rows[0].id == row.id {
        ConsUnique(row, rest);
      } else {
        UpsertedContents(rest, row);
        ConsUnique(rows[0], Upserted(rest, row));
      }
    }
  }

  /** The table after upserting the given records in order. */
  function UpsertAll(rows: seq<ResumeRow>, records: seq<R.Resume>): seq<ResumeRow>
  {
    if records == [] then rows
    else Upserted(UpsertAll(rows, records[..|records| - 1]), RowOf(records[|records| - 1]))
  }

  /** Upserting one more record upserts its row into the table the earlier ones left. */
  lemma UpsertAllSnoc(rows: seq<ResumeRow>, records: seq<R.Resume>, record: R.Resume)
    ensures UpsertAll(rows, records + [record]) == Upserted(UpsertAll(rows, records), RowOf(record))
  {
    assert (records + [record])[..|records|] == records;
  }

  /** Upserting two runs of records one after the other is upserting them together. */
  lemma {:induction false} UpsertAllAppend(rows: seq<ResumeRow>, xs: seq<R.Resume>, ys: seq<R.Resume>)
    ensures UpsertAll(UpsertAll(rows, xs), ys) == UpsertAll(rows, xs + ys)
  {
    if ys == [] {
      assert xs + ys == xs;
    } else {
      var n := |ys| - 1;
      UpsertAllAppend(rows, xs, ys[..n]);
      assert ys == ys[..n] + [ys[n]];
      assert xs + ys == (xs + ys[..n]) + [ys[n]];
      UpsertAllSnoc(UpsertAll(rows, xs), ys[..n], ys[n]);
      UpsertAllSnoc(rows, xs + ys[..n], ys[n]);
    }
  }

  /** Record k is the last of the records with its key. */
  ghost predicate LastOfKey(records: seq<R.Resume>, k: nat)
    requires k < |records|
  {
    forall l :: k < l < |records| ==> records[l].Id != records[k].Id
  }

  /** Upserting into a table with unique keys keeps them unique. */
  lemma {:induction false} UpsertAllUnique(rows: seq<ResumeRow>, records: seq<R.Resume>)
    requires UniqueKeys(rows)
    ensures UniqueKeys(UpsertAll(rows, records))
  {
    if records != [] {
      var n := |records| - 1;
      UpsertAllUnique(rows, records[..n]);
      UpsertedContents(UpsertAll(rows, records[..n]), RowOf(records[n]));
    }
  }

  /**
   * After upserting records into an empty table, its rows are exactly those of
   * the records that are the last with their key.
   */
  lemma {:induction false} UpsertAllLastWins(records: seq<R.Resume>, r: ResumeRow)
    ensures r in UpsertAll([], records) <==>
            exists k :: 0 <= k < |records| && r == RowOf(records[k]) && LastOfKey(records, k)
  {
    if records != [] {
      var n := |records| - 1;
      var before := records[..n];
      UpsertAllLastWins(before, r);
      UpsertAllUnique([], before);
      UpsertedContents(UpsertAll([], before), RowOf(records[n]));
      assert LastOfKey(records, n);
      forall k | 0 <= k < n
        ensures before[k] == records[k]
        ensures LastOfKey(records, k) <==> LastOfKey(before, k) && records[n].Id != records[k].Id
      {
      }
    }
  }

  class ResumesTable {
    var rows: seq<ResumeRow>

    ghost predicate Valid()
      reads this
    {
      Constrained(rows)
    }

    /** CREATE TABLE IF NOT EXISTS on an empty database. */
    constructor ()
      ensures Valid() && rows == []
    {
      rows := [];
    }

    /** INSERT INTO public.resumes; a null tag array is stored as the empty array. */
    method InsertResume(id: UInt64, fileName: Option<string>, content: Option<string>,
                        contentEmbedding: seq<real>, tags: Option<seq<string>>) returns (o: Outcome)
      requires Valid()
      modifies this
      ensures Valid()
      ensures o == InsertResumeCheck(old(rows), id, fileName, content, contentEmbedding, tags.GetOr([]))
      ensures o.Pass? ==> rows == old(rows) + [ResumeRow(id, fileName.value, content.value, contentEmbedding, tags.GetOr([]))]
      ensures o.Fail? ==> rows == old(rows)
    {
      o := InsertResumeCheck(rows, id, fileName, content, contentEmbedding, tags.GetOr([]));
      if o.Pass? {
        rows := rows + [ResumeRow(id, fileName.value, content.value, contentEmbedding, tags.GetOr([]))];
      }
    }

    /**
     * The connector's UpsertAsync of a record: its row replaces the row with the
     * same key, or is added when the key is new; nothing changes when it is refused.
     */
    method Upsert(record: R.Resume) returns (o: Outcome)
      requires Valid()
      modifies this
      ensures Valid()
      ensures o == UpsertCheck(record)
      ensures o.Pass? ==> rows == Upserted(old(rows), RowOf(record))
      ensures o.Fail? ==> rows == old(rows)
    {
      o := UpsertCheck(record);
      if o.Pass? {
        UpsertedContents(rows, RowOf(record));
        rows := Upserted(rows, RowOf(record));
      }
    }

    /** DELETE FROM resumes: empties the table and reports how many rows went. */
    method DeleteResumeEmbeddings() returns (deleted: nat)
      requires Valid()
      modifies this
      ensures Valid() && rows == [] && deleted == |old(rows)|
    {
      deleted := |rows|;
      rows := [];
    }
  }

  /** A second insert of the same id always fails, whatever the other values. */
  lemma DuplicateInsertFails(rows: seq<ResumeRow>, id: UInt64, fileName: string, content: string,
                             contentEmbedding: seq<real>, tags: seq<string>,
                             fileName': Option<string>, content': Option<string>, contentEmbedding': seq<real>,
                             tags': seq<string>)
    ensures InsertResumeCheck(rows + [ResumeRow(id, fileName, content, contentEmbedding, tags)],
                              id, fileName', content', contentEmbedding', tags').Fail?
  {
    var rows' := rows + [ResumeRow(id, fileName, content, contentEmbedding, tags)];
    assert rows'[|rows|].id == id;
  }

  /**
   * DbHelper.SearchEmbeddings: the same statement as SqlHelper's, run against the
   * 'embeddings' table (not 'resumes').
   */
  method SearchEmbeddings(embeddings: SqlHelper.EmbeddingsTable, collection: string, queryEmbedding: seq<real>,
                          similarity: SqlHelper.Similarity, minRelevanceScore: real, limit: int,
                          retrieveEmbeddings: bool)
    returns (r: Result<seq<SqlHelper.SearchRow>>)
    ensures r.Failure? <==> SqlHelper.SearchCheck(embeddings.rows, collection, queryEmbedding, limit).Fail?
    ensures r.Failure? ==> r.error == SqlHelper.SearchCheck(embeddings.rows, collection, queryEmbedding, limit).error
    ensures r.Success? ==> limit >= 0 && r.value == SqlHelper.SearchRows(embeddings.rows, collection, queryEmbedding,
                                                                         similarity, embeddings.jsonbOut,
                                                                         minRelevanceScore, limit, retrieveEmbeddings)
  {
    r := embeddings.SearchEmbeddings(collection, queryEmbedding, similarity, minRelevanceScore, limit, retrieveEmbeddings);
  }
}
