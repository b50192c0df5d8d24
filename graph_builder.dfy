/** The schema chunker of DBToGraph: a schema script is cut at every "CREATE TABLE" and each
    piece, the text before the first one included, becomes a document whose page content is
    "CREATE TABLE " followed by the piece. The piece keeps the space that followed the
    keyword in the schema, so a table's chunk reads "CREATE TABLE  name ..." with two spaces. */
module GraphBuilder {
  import opened PySplit

  /** A langchain document, reduced to the text it carries. */
  datatype Document = Document(pageContent: string)

  /** The separator the schema is split on. */
  const Delimiter: string := "CREATE TABLE"

  /** What each chunk is rebuilt with: the separator and one space. */
  const Prefix: string := "CREATE TABLE "

  /** The chunks the chunker builds from the split pieces `tables`, one per piece, in order. */
  function Chunks(tables: seq<string>): (docs: seq<Document>) {
    seq(|tables|, i requires 0 <= i < |tables| => Document(Prefix + tables[i]))
  }

  /** The chunks of a whole schema: never none, and each one opens with the prefix. */
  function SchemaChunks(schema: string): (docs: seq<Document>)
    ensures |docs| >= 1
    ensures forall i :: 0 <= i < |docs| ==> Prefix <= docs[i].pageContent
  {
    Chunks(Split(schema, Delimiter))
  }

  /** Python's `text.removeprefix(Prefix)`. */
  function RemovePrefix(text: string): (r: string) {
    if Prefix <= text then text[|Prefix|..] else text
  }

  /** What is left of each chunk once its prefix is taken off. */
  function Remainders(docs: seq<Document>): (rs: seq<string>) {
    seq(|docs|, i requires 0 <= i < |docs| => RemovePrefix(docs[i].pageContent))
  }

  /** "CREATE TABLE" cannot overlap itself: its first letter occurs nowhere else in it. */
  lemma DelimiterNoBorder()
    ensures NoBorder(Delimiter)
  {
    var n := |Delimiter|;
    forall k | 0 < k < n ensures Delimiter[k..] != Delimiter[..n - k] {
      assert Delimiter[k] != 'C';
      assert Delimiter[k..][0] != Delimiter[..n - k][0];
    }
  }

  /** The chunker, as `transform_schema_to_langchain_documents`: split the schema, then
      append one rebuilt chunk per piece to a list that starts empty. */
  method TransformSchemaToLangchainDocuments(schema: string) returns (docs: seq<Document>)
    ensures docs == SchemaChunks(schema)
    ensures |docs| == OccurrenceCount(schema, Delimiter) + 1
    ensures forall i :: 0 <= i < |docs| ==> Prefix <= docs[i].pageContent
    ensures Join(Remainders(docs), Delimiter) == schema
  {
    docs := [];
    var tables := Split(schema, Delimiter);
    var i := 0;
    while i < |tables|
      invariant 0 <= i <= |tables|
      invariant |docs| == i
      invariant forall k :: 0 <= k < i ==> docs[k] == Document(Prefix + tables[k])
    {
      docs := docs + [Document(Prefix + tables[i])];
      i := i + 1;
    }
    ChunkCount(schema);
    ChunksRoundTrip(schema);
  }

  /** There is one chunk per occurrence of "CREATE TABLE" in the schema, plus one. */
  lemma ChunkCount(schema: string)
    ensures |SchemaChunks(schema)| == OccurrenceCount(schema, Delimiter) + 1
  {
    DelimiterNoBorder();
    SplitLength(schema, Delimiter);
  }

  /** Chunk i is the prefix followed by the i-th piece of the split, so every chunk starts
      with "CREATE TABLE " and the chunks keep the order of the tables in the schema. */
  lemma ChunksInOrder(schema: string, i: nat)
    requires i < |SchemaChunks(schema)|
    ensures Prefix <= SchemaChunks(schema)[i].pageContent
    ensures SchemaChunks(schema)[i].pageContent == Prefix + Split(schema, Delimiter)[i]
  {
  }

  /** Taking the prefix off each chunk gives back exactly the pieces of the split. */
  lemma RemaindersAreTables(tables: seq<string>)
    ensures Remainders(Chunks(tables)) == tables
  {
    var rs := Remainders(Chunks(tables));
    forall i | 0 <= i < |tables| ensures rs[i] == tables[i] {
      assert (Prefix + tables[i])[|Prefix|..] == tables[i];
    }
  }

  /** Round trip: removing the prefix from each chunk and joining the rest with
      "CREATE TABLE" reproduces the schema exactly. */
  lemma ChunksRoundTrip(schema: string)
    ensures Join(Remainders(SchemaChunks(schema)), Delimiter) == schema
  {
    RemaindersAreTables(Split(schema, Delimiter));
    JoinSplit(schema, Delimiter);
  }

  /** No chunk holds "CREATE TABLE" after its prefix: each covers exactly one piece. */
  lemma RemaindersFree(schema: string)
    ensures forall i :: 0 <= i < |SchemaChunks(schema)| ==>
      !Contains(RemovePrefix(SchemaChunks(schema)[i].pageContent), Delimiter)
  {
    var tables := Split(schema, Delimiter);
    RemaindersAreTables(tables);
    SplitPiecesFree(schema, Delimiter);
    var rs := Remainders(SchemaChunks(schema));
    assert forall i :: 0 <= i < |tables| ==> rs[i] == tables[i];
  }

  /** A schema without "CREATE TABLE", the empty one included, gives exactly one chunk, the
      prefix followed by the whole schema, and only such a schema does. */
  lemma SingleChunk(schema: string)
    ensures SchemaChunks(schema) == [Document(Prefix + schema)] <==> !Contains(schema, Delimiter)
  {
    SplitSingle(schema, Delimiter);
    var tables := Split(schema, Delimiter);
    if SchemaChunks(schema) == [Document(Prefix + schema)] {
      RemaindersAreTables(tables);
      assert Remainders(SchemaChunks(schema)) == [schema];
    }
  }

  /** The empty schema gives a single chunk holding only the prefix. */
  lemma EmptySchema()
    ensures SchemaChunks("") == [Document("CREATE TABLE ")]
  {
    SingleChunk("");
    assert Prefix + "" == "CREATE TABLE ";
  }

  /** The text before the first "CREATE TABLE" is always the first chunk, even when empty:
      a schema that starts with "CREATE TABLE" has "CREATE TABLE " alone as first chunk. */
  lemma LeadingChunk(schema: string)
    ensures Prefix <= SchemaChunks(schema)[0].pageContent
    ensures var lead := RemovePrefix(SchemaChunks(schema)[0].pageContent);
      lead <= schema && !Contains(lead, Delimiter) &&
      (lead == schema || OccursAt(schema, Delimiter, |lead|)) &&
      (forall j :: 0 <= j < |lead| ==> !OccursAt(schema, Delimiter, j))
    ensures Delimiter <= schema ==> SchemaChunks(schema)[0].pageContent == Prefix
  {
    LeadingPiece(schema, Delimiter);
    var lead := Split(schema, Delimiter)[0];
    assert (Prefix + lead)[|Prefix|..] == lead;
  }

  /** The chunks of "CREATE TABLE geo_river": an empty leading chunk, then the table with the
      doubled space. */
  lemma DoubledSpaceExample()
    ensures SchemaChunks("CREATE TABLE geo_river") ==
      [Document("CREATE TABLE "), Document("CREATE TABLE  geo_river")]
  {
    SplitExample();
    assert Prefix + "" == "CREATE TABLE ";
    assert Prefix + " geo_river" == "CREATE TABLE  geo_river";
  }

  /** Splitting "CREATE TABLE geo_river" leaves an empty piece and the rest, whose leading
      space `split` keeps. */
  lemma SplitExample()
    ensures Split("CREATE TABLE geo_river", Delimiter) == ["", " geo_river"]
  {
    var s := "CREATE TABLE geo_river";
    assert OccursAt(s, Delimiter, 0);
    assert s[..0] == "";
    assert s[12..] == " geo_river";
    assert Find(" geo_river", Delimiter) == None;
    SplitStep(s, Delimiter);
  }
}
