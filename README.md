# Schema chunker of db-to-graphs-llm, in Dafny

The pipeline turns a relational schema script into a knowledge graph. Before any language
model sees the schema, `DBToGraph.transform_schema_to_langchain_documents` cuts it into one
document per piece of the split, the text before the first `CREATE TABLE` included. That is
one document more than there are occurrences of `CREATE TABLE`. It splits the text on the
literal `"CREATE TABLE"` with Python's `str.split`. Then it appends `"CREATE TABLE " + piece`
(an f-string) for every piece, in order, to a list that starts empty. This project models that function and proves what it does.

- `py_split.dfy`, module `PySplit`: Python's `str.find`, `str.split` and `str.join` for a
  non-empty separator, on strings as sequences of characters. `Split` cuts at the leftmost
  occurrence and continues after it, so matches never overlap. The text before the first
  occurrence is always the first piece, even when empty. `OccurrenceCount` counts every index
  at which the separator starts. It is computed index by index and does not depend on the
  scan that `Split` does. The lemmas
  prove that splitting round-trips through `Join` and that no piece holds the separator. For
  a separator that cannot overlap itself (`NoBorder`), they also prove the piece count and
  that the split is the only such decomposition.
- `graph_builder.dfy`, module `GraphBuilder`: a langchain `Document` reduced to its
  `page_content`, the two constants, and the chunker itself. The chunker is a method with the
  source's loop, proved against the specification function `SchemaChunks`. The lemmas give
  the chunker's count, prefix, order, round trip, single-chunk and leading-chunk properties.

The doubled space is kept as the source writes it. `split` leaves the space that follows the
keyword at the head of the piece, and the f-string adds one more. So `"CREATE TABLE geo_river"`
gives the chunks `"CREATE TABLE "` and `"CREATE TABLE  geo_river"` (`DoubledSpaceExample`).

## Model

| member | source | states |
|---|---|---|
| `PySplit.Find` | graph_builder.py:48 | The index `split` cuts at is an occurrence of the separator, and no occurrence starts before it. None means the separator does not occur at all, and the converse also holds. |
| `PySplit.Split` | graph_builder.py:48 | The leftmost, non-overlapping cut of `str.split`, which always returns at least one piece. What it returns is pinned down by `JoinSplit`, `SplitPiecesFree` and `SplitUnique`. |
| `PySplit.SplitLength` | graph_builder.py:48 | For a separator that cannot overlap itself, `split` yields exactly one piece more than the number of indices where the separator occurs. |
| `PySplit.JoinSplit` | graph_builder.py:48 | Joining the pieces of `split` with the separator reproduces the input exactly. |
| `PySplit.SplitPiecesFree` | graph_builder.py:48 | No piece produced by `split` contains the separator. |
| `PySplit.SplitSingle` | graph_builder.py:48 | `split` returns the input alone exactly when the separator does not occur in it. |
| `PySplit.LeadingPiece` | graph_builder.py:48 | The first piece is a prefix of the input and is free of the separator. No occurrence starts inside it. It is either the whole input or followed by an occurrence, so it ends at the first occurrence. It is empty when the input starts with the separator. |
| `PySplit.SplitUnique` | graph_builder.py:48 | For a separator that cannot overlap itself, the pieces of `split` are the only list of separator-free pieces that joins back to the input. |
| `GraphBuilder.DelimiterNoBorder` | graph_builder.py:48 | `"CREATE TABLE"` has no proper prefix that is also a suffix, so its occurrences never overlap. |
| `GraphBuilder.SchemaChunks` | graph_builder.py:49-50 | The documents the chunker returns for a schema, one `"CREATE TABLE " + piece` per split piece in order. There is always at least one, and each opens with `"CREATE TABLE "`. |
| `GraphBuilder.TransformSchemaToLangchainDocuments` | graph_builder.py:44-51 | The loop builds exactly `SchemaChunks(schema)`. The result has one document per occurrence of `"CREATE TABLE"` plus one. Every document starts with `"CREATE TABLE "`. Stripping that prefix and joining with `"CREATE TABLE"` gives the schema back. |
| `GraphBuilder.ChunkCount` | graph_builder.py:48-50 | The number of chunks is the number of occurrences of `"CREATE TABLE"` in the schema plus one. |
| `GraphBuilder.ChunksInOrder` | graph_builder.py:46-50 | Chunk i is `"CREATE TABLE "` followed by the i-th split piece, so every chunk starts with the prefix, including the trailing space, and the order is kept. |
| `GraphBuilder.ChunksRoundTrip` | graph_builder.py:48-50 | Removing `"CREATE TABLE "` from each chunk and joining the remainders with `"CREATE TABLE"` reproduces the schema exactly. |
| `GraphBuilder.RemaindersFree` | graph_builder.py:48-50 | No chunk contains `"CREATE TABLE"` after its prefix. |
| `GraphBuilder.SingleChunk` | graph_builder.py:48-50 | The chunks are the single document `"CREATE TABLE " + schema` if and only if the schema contains no `"CREATE TABLE"`. |
| `GraphBuilder.EmptySchema` | graph_builder.py:48-50 | The empty schema yields one chunk, `"CREATE TABLE "`. |
| `GraphBuilder.LeadingChunk` | graph_builder.py:48-50 | The first chunk is the prefix followed by the text before the first `"CREATE TABLE"`, or by the whole schema if there is none. No occurrence starts inside that text. A schema that starts with `"CREATE TABLE"` has `"CREATE TABLE "` alone as its first chunk. |
| `GraphBuilder.SplitExample` | graph_builder.py:48 | Splitting `"CREATE TABLE geo_river"` gives an empty piece and `" geo_river"`, which keeps the space that followed the keyword. |
| `GraphBuilder.DoubledSpaceExample` | graph_builder.py:50 | `"CREATE TABLE geo_river"` gives `"CREATE TABLE "` and `"CREATE TABLE  geo_river"`, with two spaces. |

## Left out

- The language-model client, `LLMGraphTransformer` and `convert_to_graph_documents` (graph_builder.py:19, 32-42, 53-56) are calls to a remote, non-deterministic model. Their output has no contract to state.
- `Neo4jGraph` and `add_graph_documents` (graph_builder.py:22, 58-59) are writes to an external graph database.
- `load_dotenv`, the constructor's orchestration and the `__main__` entry point (graph_builder.py:14, 17-30, 61-63) are environment and script plumbing.
- The allow-lists of node, relationship and property names (graph_builder.py:36-41) are constant configuration handed to a library.
- The prompt templates in prompts/db_to_graphs_prompt_v1.py and prompts/table_data_augmentation_v0.py are natural-language text with no logic. Their `---chunk---` marker is never split on in the files modelled here.
- The augmentation cache and its re-splitting on a marker are not part of this model. No file modelled here contains them. The `prompts.db_to_graphs_prompt_v0` and `schemas.mondial_schema` modules that graph_builder.py imports are not part of this model either.
- `Document` keeps only `page_content`. Langchain's metadata and identifiers are left out, because the chunker does not set them.
- Python raises `ValueError` when `str.split` gets an empty separator. `PySplit` requires a non-empty separator instead, because the only separator used is the constant `"CREATE TABLE"`.
- Python's `str.count` counts non-overlapping occurrences. `OccurrenceCount` counts every starting index. The two agree for `"CREATE TABLE"`, which cannot overlap itself (`GraphBuilder.DelimiterNoBorder`).
