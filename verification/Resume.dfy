/**
 * The record type the vector-store connector maps to the 'resumes'
 * collection: its fields, their defaults and the storage layout its
 * attributes declare.
 */
module Resume {
  import opened Wrappers

  /** Range of the C# 'long' key. */
  type Int64 = x: int | -0x8000_0000_0000_0000 <= x < 0x8000_0000_0000_0000

  /** Range of the C# 'int' that string.GetHashCode returns. */
  type Int32 = x: int | -0x8000_0000 <= x < 0x8000_0000

  datatype Resume = Resume(
    Id: Int64,
    FileName: string,
    Content: string,
    ContentEmbedding: Option<seq<real>>,
    Tags: seq<string>)

  /** A record as 'new Resume()' leaves it: zero key, empty strings, no embedding, no tags. */
  function NewResume(): (r: Resume)
    ensures r.Id == 0 && r.FileName == [] && r.Content == [] && r.ContentEmbedding.None? && r.Tags == []
  {
    Resume(0, "", "", None, [])
  }

  datatype Property = IdProperty | FileNameProperty | ContentProperty | ContentEmbeddingProperty | TagsProperty

  datatype DistanceFunction = CosineSimilarity
  datatype IndexKind = Hnsw

  /** What the attribute on a property declares about it. */
  datatype Kind =
    | Key
    | Data(isFilterable: bool, isFullTextSearchable: bool)
    | Vector(dimensions: nat, distance: DistanceFunction, index: IndexKind)

  function KindOf(p: Property): (k: Kind)
    ensures k.Key? <==> p == IdProperty
    ensures k.Vector? ==> k == Vector(1536, CosineSimilarity, Hnsw)
    ensures k.Data? ==> (k.isFilterable <==> p != ContentProperty) && (k.isFullTextSearchable <==> p == ContentProperty)
  {
    match p
    case IdProperty => Key
    case FileNameProperty => Data(true, false)
    case ContentProperty => Data(false, true)
    case ContentEmbeddingProperty => Vector(1536, CosineSimilarity, Hnsw)
    case TagsProperty => Data(true, false)
  }

  /** The column each property is stored in. */
  function StorageName(p: Property): string
  {
    match p
    case IdProperty => "id"
    case FileNameProperty => "filename"
    case ContentProperty => "content"
    case ContentEmbeddingProperty => "content_embedding"
    case TagsProperty => "tags"
  }

  /** The property a column holds, if any. */
  function PropertyOf(column: string): (r: Option<Property>)
    ensures r.Some? ==> StorageName(r.value) == column
  {
    if column == "id" then Some(IdProperty)
    else if column == "filename" then Some(FileNameProperty)
    else if column == "content" then Some(ContentProperty)
    else if column == "content_embedding" then Some(ContentEmbeddingProperty)
    else if column == "tags" then Some(TagsProperty)
    else None
  }

  /** Column names identify properties: reading a property's column back gives the property. */
  lemma StorageNameRoundTrip(p: Property)
    ensures PropertyOf(StorageName(p)) == Some(p)
  {
    match p
    case IdProperty =>
    case FileNameProperty =>
      assert StorageName(p)[0] != 'i';
    case ContentProperty =>
      assert StorageName(p) != "id" && StorageName(p) != "filename";
    case ContentEmbeddingProperty =>
      assert |StorageName(p)| == 17;
    case TagsProperty =>
      assert StorageName(p)[0] == 't';
  }

  /** No two properties share a column. */
  lemma StorageNameInjective(p: Property, q: Property)
    requires StorageName(p) == StorageName(q)
    ensures p == q
  {
    StorageNameRoundTrip(p);
    StorageNameRoundTrip(q);
  }
}
