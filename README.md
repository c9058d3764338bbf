# Document question answering: chunking, embedding ingestion and answering

The service answers questions about an uploaded document. The document text is
cut into overlapping chunks. Each chunk is embedded through the Gemini embedding
API and stored as a record in a Pinecone index. A question is embedded the same
way and used to search the index. The texts of the relevant matches form a
context, and a generative model answers from that context. When generation
fails, a local keyword-overlap answer is built from the context instead.

This Dafny project models that core:

- `pytext.dfy` (module `PyText`) gives the Python string built-ins the services
  use. These are `str.isspace`, `str.lower`, `str.strip`, `str.split('.')`,
  `str.split()`, `sep.join`, the substring test `k in s` and `str(n)`. Each one
  comes with the properties the rest of the model relies on.
- `seqs.dfy` (module `Seqs`) covers two shapes:
  - the list comprehension with a condition (`Filter`), together with the
    positions it keeps;
  - the sliding windows that both the chunker loop and the upload loop produce
    (`Windows`), together with their count, position, coverage and partition.
- `chunker.dfy` (module `Chunker`) models `chunk_text`. The `while` loop is a
  method proved against the function `Chunks`.
- `vectorstore.dfy` (module `VectorStore`) models the ingestion path: truncation,
  `get_embedding` with its rate-limit retry, `get_query_embedding`, and the two
  loops of `embed_chunks_store` (embedding with retry, then upsert in batches of
  100). The loops are methods proved against the function `EmbedAll` and the
  predicate `UploadedUntilFailure`.
- `llm_client.dfy` (module `LlmClient`) models the query path:
  `process_single_query`, `generate_answer_with_gemini` and
  `generate_simple_answer`. The scoring loop of the last is a method proved
  against the function `SimpleAnswer`.

The hosted services are parameters of arrow type. The embedding call is a total
function of the request's position in the run, its content and its task type.
The upsert call is a function of the index name, the batch number and the batch.
The search call is a function of the index, vector, `top_k` and namespace. The
generation call is a function of the context and the question. Each call can
therefore succeed or raise independently. The embedding functions and methods
also return the contents they sent, so the contracts can talk about the
retries. `ProcessSingleQuery` returns the log of every call it made, including
the generation request; `GenerateAnswer` returns only the answer.

Two behaviours of the code are easy to miss:

- The embedding of a question (`services/vectorstore.py:132-153`) has no
  rate-limit retry. It truncates the question, makes one request and wraps any
  failure as "Failed to get query embedding: …".
- Inside ingestion, the retry can happen twice over. `get_embedding` already
  retries once on a rate-limit error. When that retry also fails, the message it
  raises wraps the retry's error. If that error also mentions rate limiting or
  quota, the chunk loop (`services/vectorstore.py:61-79`) calls `get_embedding`
  once more. A chunk can therefore be sent up to four times, not twice
  (`VectorStore.PersistentRateLimit`). When the retry fails with any other
  error, the chunk is sent twice and the ingestion fails.

## Model

| member | source | states |
|---|---|---|
| PyText.IsSpace | services/chunker.py:10 | definition of the whitespace that `strip()` removes and `split()` splits on (also `services/llm_client.py:110`), for the ASCII and Latin-1 range |
| PyText.NonEmpty | services/chunker.py:10 | definition of the truth value of a string in a condition: it is non-empty (also `services/llm_client.py:120`) |
| PyText.LowerChar | services/llm_client.py:105 | lower-casing a character keeps whitespace as whitespace, leaves no upper-case ASCII letter and changes nothing else |
| PyText.Lower | services/llm_client.py:113 | `str.lower` works character by character: same length, each character lower-cased |
| PyText.LowerAppend | services/vectorstore.py:63 | lower-casing distributes over concatenation, so a prefix added to a message does not disturb its lower-cased text |
| PyText.Contains | services/llm_client.py:114 | definition of the substring test `k in s`: `k` occurs at some position of `s` (also `services/vectorstore.py:63`) |
| PyText.ContainsFirstChar | services/llm_client.py:114 | a non-empty keyword can only occur in a sentence if its first character does |
| PyText.LeadingSpaces | services/chunker.py:10 | the count of leading whitespace: all of those characters are whitespace and the next one is not |
| PyText.TrailingSpaces | services/chunker.py:10 | the count of trailing whitespace: all of those characters are whitespace and the one before is not |
| PyText.Strip | services/chunker.py:10 | `strip()` returns the substring after the leading whitespace; only whitespace lies before or after it; a non-empty result neither starts nor ends with whitespace; the result is empty exactly when the text is all whitespace |
| PyText.Join | services/llm_client.py:49 | joining no parts gives the empty string, and joining one part gives that part unchanged |
| PyText.JoinAppend | services/llm_client.py:49 | for any separator, joining one more part appends the separator and that part; with the two cases above this determines `sep.join` |
| PyText.SplitOn | services/llm_client.py:106 | `split('.')` always gives at least one piece, and no piece contains the separator |
| PyText.JoinSplitOn | services/llm_client.py:106 | joining the pieces of `split('.')` with '.' gives the context back, so the sentences lose nothing |
| PyText.Words | services/llm_client.py:110 | every token of `split()` is non-empty and contains no whitespace |
| PyText.WordsSplitAtSpace | services/llm_client.py:110 | a whitespace character separates: `(a + c + b).split()` is `a.split() + b.split()` |
| PyText.WordsOfWord | services/llm_client.py:110 | a non-empty run without whitespace splits into itself alone, so with `WordsSplitAtSpace` the tokens are exactly the maximal whitespace-free runs |
| PyText.WordsKeepNonSpace | services/llm_client.py:110 | the tokens of `split()`, glued together, are exactly the non-whitespace characters of the question in order |
| PyText.NatToString | services/vectorstore.py:56 | `str(i)` is decimal digits only: one digit below 10, and from 10 on at least two without a leading zero, ending in the digit `i % 10` |
| PyText.NatToStringValue | services/vectorstore.py:56 | the digits of `str(i)` denote `i` |
| PyText.NatToStringInjective | services/vectorstore.py:56 | different chunk numbers print differently |
| Seqs.Filter | services/chunker.py:10 | a comprehension with a condition keeps at most as many elements as it is given, and only elements of the input that meet the condition |
| Seqs.FilterKeeps | services/llm_client.py:40 | a comprehension with a condition drops no element that meets the condition |
| Seqs.FilterAppend | services/llm_client.py:112-116 | appending inside the loop is the comprehension over one more element |
| Seqs.FilterAt | services/llm_client.py:40 | the k-th kept element is the input element at the k-th kept position |
| Seqs.FilterIndicesIncrease | services/llm_client.py:40 | the kept positions strictly increase, so the kept elements keep their input order |
| Seqs.FilterIndicesExact | services/llm_client.py:40 | a position is kept exactly when its element meets the condition |
| Seqs.Windows | services/chunker.py:6-9 | every slice `s[start:min(start + size, len(s))]` cut while `start < len(s)` is non-empty and at most `size` long |
| Seqs.WindowsCount | services/chunker.py:6-9 | the loop makes the least number n of windows with `n * step >= len(s) - start` |
| Seqs.WindowAt | services/vectorstore.py:84-85 | window k is the slice that starts at `start + k * step` |
| Seqs.WindowExists | services/chunker.py:6-9 | every start `start + k * step` inside the sequence gets its window |
| Seqs.WindowsCover | services/chunker.py:6-9 | when the step is at most the size, every position lies in window `(j - start) / step` |
| Seqs.ConsecutiveWindows | services/chunker.py:6-9 | when the step is at most the size, a window from position `step` on is the start of the next window, and it is `size - step` long whenever the next window is at least that long |
| Seqs.WindowsPartition | services/vectorstore.py:84-85 | when step equals size, the windows concatenate to exactly the sequence |
| Chunker.RawWindows | services/chunker.py:4-9 | definition of the list the `while` loop builds: the windows of `chunk_size` characters, starting every `chunk_size - overlap` characters |
| Chunker.Chunks | services/chunker.py:3-10 | every chunk is non-empty, at most `chunk_size` characters long, and neither starts nor ends with whitespace; an empty text has no chunks |
| Chunker.StrippedWindowsBounded | services/chunker.py:10 | stripping never makes a window longer than `chunk_size` |
| Chunker.ChunkText | services/chunker.py:3-10 | the `while` loop followed by the strip-and-drop comprehension returns `Chunks` |
| Chunker.RawWindowAt | services/chunker.py:6-9 | window k is `text[k*step : min(k*step + chunk_size, len(text))]` with `step = chunk_size - overlap` |
| Chunker.RawWindowCount | services/chunker.py:6-9 | there are `ceil(len(text) / step)` windows, and none for an empty text |
| Chunker.RawWindowsCover | services/chunker.py:6-9 | with a non-negative overlap no character is skipped: character j lies in window `j / step` |
| Chunker.RawWindowsOverlap | services/chunker.py:6-9 | with a non-negative overlap, the end of each window from position `chunk_size - overlap` on opens the next window; it is `overlap` characters long, and the earlier window has the full `chunk_size`, whenever the next window is at least `overlap` long |
| Chunker.DefaultWindowsOverlap | config.py:13-14 | with the defaults `CHUNK_SIZE = 2000` and `CHUNK_OVERLAP = 200`, the windows start every 1800 characters, and a window followed by one of at least 200 characters is 2000 long and hands its last 200 characters on |
| Chunker.ChunksFollowWindows | services/chunker.py:10 | the chunks are the stripped non-blank windows in window order, and every window left out strips to nothing |
| Chunker.ChunksOccurInText | services/chunker.py:3-10 | every chunk occurs verbatim in the text |
| Chunker.StrippedSliceOccurs | services/chunker.py:8-10 | a stripped slice of the text occurs in the text |
| VectorStore.Truncate | services/vectorstore.py:98-99 | the text sent is the first `min(len, 2048)` characters of the text, and a text of at most 2048 characters is sent unchanged |
| VectorStore.GetEmbedding | services/vectorstore.py:94-130 | one or two requests, all with the truncated text and the document task; a second request exactly when the first failed with a rate-limit message; the last reply decides: its vector, or its message wrapped as "Failed to get embedding after retry: " after a retry or "Failed to get embedding: " otherwise |
| VectorStore.GetQueryEmbedding | services/vectorstore.py:132-153 | exactly one request, with the truncated question and the query task; its vector, or its message wrapped as "Failed to get query embedding: " |
| VectorStore.ChunkEmbedding | services/vectorstore.py:52-79 | one to four requests for a chunk, all with the truncated chunk; more than `get_embedding`'s own requests exactly when `get_embedding` failed with a rate-limit message; the requests are `get_embedding`'s own followed, exactly when it is called again, by those of the second call; a vector returned is the reply to the last request; an error raised is the one from the second `get_embedding` call when there was one, else from the first |
| VectorStore.IsRateLimit | services/vectorstore.py:63 | definition of the rate-limit test: the lower-cased message contains "rate limit" or "quota"; `GetEmbedding`, `ChunkEmbedding` and `RateLimitWrapped` state its use |
| VectorStore.RateLimitWrapped | services/vectorstore.py:63 | a message that counts as rate limiting still counts after a prefix is put in front of it |
| VectorStore.PersistentRateLimit | services/vectorstore.py:61-79 | a chunk whose requests are all refused for rate limiting is sent four times, and the error raised is the fourth refusal, wrapped as "Failed to get embedding after retry: " |
| VectorStore.ChunkId | services/vectorstore.py:56 | definition of the record id `chunk-<i>`; its properties are stated by `ChunkIdInjective` and `PyText.NatToStringValue` |
| VectorStore.ChunkIdInjective | services/vectorstore.py:56 | the record ids `chunk-<i>` are distinct for distinct chunks |
| VectorStore.EmbedAll | services/vectorstore.py:52-79 | at most four requests per chunk; on success at least one request per chunk and one record per chunk, in order, with id `chunk-<i>` and the chunk as its text |
| VectorStore.EmbedAllRecords | services/vectorstore.py:52-59 | on success, every chunk's attempt succeeded and record `i` holds the vector returned for chunk `i` (`"values": embedding`) |
| VectorStore.EmbedAllSent | services/vectorstore.py:52-79 | on success the requests sent are exactly those of each chunk's attempt, chunk by chunk in order |
| VectorStore.EmbedAllFailure | services/vectorstore.py:61-79 | a failed ingestion failed at some chunk `i`: every earlier chunk went through, chunk `i`'s attempt raised the very error the ingestion ends with, and nothing was sent after it |
| VectorStore.EmbedAllStopsAtFailure | services/vectorstore.py:75-79 | once a chunk fails for good, the later chunks send nothing and change nothing |
| VectorStore.Batches | services/vectorstore.py:84-85 | definition of the upload batches `vectors[i:i + 100]`; `BatchesPartition` states their count, sizes and concatenation |
| VectorStore.BatchesPartition | services/vectorstore.py:81-85 | there are `ceil(n / 100)` batches of 1 to 100 records each, and together, in order, they are exactly the records |
| VectorStore.EmbedWithRetry | services/vectorstore.py:53-79 | the body of the embedding loop for one chunk sends and returns what `ChunkEmbedding` describes |
| VectorStore.EmbedChunks | services/vectorstore.py:50-79 | the embedding loop returns what `EmbedAll` describes |
| VectorStore.UploadedUntilFailure | services/vectorstore.py:84-90 | definition of the upload loop's outcome: a prefix of the batches sent, all but the last accepted, and success exactly when every batch was sent and accepted, else the last batch's error |
| VectorStore.UploadBatches | services/vectorstore.py:81-90 | the batches sent are a prefix of the batches; all but the last were accepted; the upload succeeds exactly when every batch was sent and accepted, and otherwise fails with the last batch's error |
| VectorStore.EmbedChunksStore | services/vectorstore.py:45-92 | the requests sent are those of `EmbedAll`; an embedding failure is raised and nothing is uploaded; otherwise the records are uploaded as `UploadBatches` states |
| LlmClient.IsRelevant | services/llm_client.py:40 | definition of a relevant match: its score is at least 0.75 |
| LlmClient.RelevantMatches | services/llm_client.py:39-42 | the matches scoring at least 0.75, or the first match alone when none does; the result is empty exactly when there are no matches |
| LlmClient.RelevantFilterEmpty | services/llm_client.py:40-41 | the threshold filter is empty exactly when no match scores at least 0.75 |
| LlmClient.RelevantFilterIsOrderedSubsequence | services/llm_client.py:40 | the filtered matches are exactly those scoring at least 0.75, in search order |
| LlmClient.Texts | services/llm_client.py:49 | the texts of the matches, one per match, in order: text i is match i's text |
| LlmClient.Context | services/llm_client.py:49 | definition of the context: the match texts joined by blank lines; `BestMatchContext` states the one-match case |
| LlmClient.ContextSingle | services/llm_client.py:49 | the context of one match is its text |
| LlmClient.ContextAppend | services/llm_client.py:49 | one more relevant match adds a blank line and its text, so the context is the texts of the relevant matches in order, separated by blank lines |
| LlmClient.BestMatchContext | services/llm_client.py:41-49 | when no match reaches 0.75, the context is exactly the text of the best match |
| LlmClient.Keywords | services/llm_client.py:105-110 | every keyword is non-empty and contains no whitespace; the keywords are the `split()` tokens of the lower-cased question, as `Words` states |
| LlmClient.Score | services/llm_client.py:114 | a sentence's score is the number of keywords found in the lower-cased sentence, a repeated keyword counted each time; so it is at most the number of keywords, and positive exactly when the sentence contains some keyword |
| LlmClient.KeptSentences | services/llm_client.py:109-116 | definition of the list the `for` loop builds: each sentence with a positive score, stripped, with its score, in order |
| LlmClient.KeptSentencesExact | services/llm_client.py:112-116 | every kept sentence has a positive score, and every sentence with a positive score is kept, stripped |
| LlmClient.KeptSentencesStep | services/llm_client.py:112-116 | one loop iteration appends the stripped sentence exactly when its score is positive |
| LlmClient.KeptTextsNonEmpty | services/llm_client.py:116-120 | no kept sentence strips to the empty string, so the `if sent[0]` test never drops one |
| LlmClient.ScoredSentenceNotBlank | services/llm_client.py:114-116 | a sentence that contains a keyword does not strip to the empty string |
| LlmClient.InsertByScore | services/llm_client.py:119 | definition of one insertion step of the reference sort: the element goes before the first one with a lower or equal score |
| LlmClient.SortByScoreDesc | services/llm_client.py:119 | definition of `list.sort(key=score, reverse=True)` by insertion; `SortByScoreDescCorrect` states what it is |
| LlmClient.TopSentences | services/llm_client.py:120 | definition of `[sent[0] for sent in relevant_sentences[:3] if sent[0]]` |
| LlmClient.InsertByScorePermutes | services/llm_client.py:119 | inserting into the sorted list adds exactly that element |
| LlmClient.InsertByScoreSorted | services/llm_client.py:119 | insertion keeps the list in descending order of score |
| LlmClient.InsertByScoreStable | services/llm_client.py:119 | insertion puts the element first among those of equal score |
| LlmClient.SortByScoreDescCorrect | services/llm_client.py:119 | the sort is a permutation, orders by descending score, and keeps the original order among equal scores |
| LlmClient.FilterNonEmptyKeepsAll | services/llm_client.py:120 | the `if sent[0]` test keeps a list of non-empty texts unchanged |
| LlmClient.KeptSentencesEmpty | services/llm_client.py:112-116 | nothing is kept exactly when no sentence contains a keyword |
| LlmClient.TopSentencesOfKept | services/llm_client.py:119-120 | sorting keeps the number of sentences, and the answer lists the texts of the first `min(3, n)` sorted sentences |
| LlmClient.SortedTextsNonEmpty | services/llm_client.py:120 | a permutation of non-blank sentences loses none of its first three texts to the `if sent[0]` test |
| LlmClient.Render | services/llm_client.py:122-126 | the answer is the fixed "couldn't extract" message exactly when there are no top sentences |
| LlmClient.SimpleAnswerNoMatch | services/llm_client.py:103-126 | the fallback answer is the fixed "couldn't extract" message exactly when no sentence of the context contains a keyword of the question |
| LlmClient.SimpleAnswerLists | services/llm_client.py:119-124 | otherwise it is "Based on the document:" followed by the texts of the first `min(3, n)` sentences by descending score, separated by blank lines |
| LlmClient.SimpleAnswer | services/llm_client.py:103-126 | definition of the fallback answer; `SimpleAnswerNoMatch` and `SimpleAnswerLists` state what it is |
| LlmClient.GenerateSimpleAnswer | services/llm_client.py:103-126 | the scoring loop, the sort and the selection return `SimpleAnswer` |
| LlmClient.GenerateAnswer | services/llm_client.py:60-101 | when the model raises, the answer is the local fallback answer; otherwise it is the model's text stripped: a substring of it with no whitespace at either end |
| LlmClient.ProcessSingleQuery | services/llm_client.py:13-58 | the question is embedded first; an embedding or search failure becomes "Error processing query: " plus the message; with no matches the fixed "no relevant information" answer is returned and the model is not asked; otherwise the model is asked exactly once, with the context of the relevant matches, and its answer is returned |

## Left out

- Whitespace and case: `IsSpace` covers the ASCII and Latin-1 whitespace of `str.isspace`, and `LowerChar` lower-cases ASCII letters only. The Unicode tables behind Python's `str.isspace` and `str.lower` are not modelled.
- Chunker.Chunks: requires `0 < chunk_size` and `overlap < chunk_size`, and so does `Chunker.ChunkText`. With `overlap >= chunk_size` the source never ends on a non-empty text. With `chunk_size == 0` and a negative overlap every window is empty and the source returns `[]`; that degenerate input is excluded. With a negative `chunk_size`, Python's negative slice indices come into play, and those are not modelled.
- Waiting: the 60-second `time.sleep` before each retry is left out. Only the order of the requests is modelled.
- Logging, async threads, the client objects and the `DEBUG_MATCH_SCORES` switch are left out: the `print` calls, `asyncio.to_thread`, `genai.configure`, `Pinecone(...)` and `pc.Index(...)`.
- The generation prompt: its template, the model name, the temperature and the token limit are left out. The generation call is a function of the context and the question.
- Malformed replies are not modelled: a reply without `embedding`, a match without `score` or `metadata.text`, or a response without `matches`. The search call returns the matches directly, as (score, text) pairs.
- Scores: similarity scores are real numbers, compared with 0.75 exactly. Floating-point rounding is not modelled.
- Vector dimension: the 768-dimension setting belongs to index creation, which is not modelled. Vectors are passed through without checking their length.
- `list.sort`: Python's Timsort is modelled by a stable insertion sort. A stable descending sort by score has only one possible result, so the choice of algorithm does not change the answer.
- `create_temp_index`, `test_gemini_connection` and `services/file_handler.py` are not part of this model.
