/** The ingestion side of the service: embedding through the Gemini API with
    truncation and a rate-limit retry, record building and batched upserts into
    a Pinecone index. The hosted services are oracles: each is a total function
    of everything the call could depend on, including its position among the
    calls of one run, so that any sequence of successes and failures can be
    expressed. */
module VectorStore {
  import opened PyText
  import opened Seqs

  /** Texts longer than this are cut before they are embedded. */
  const MaxEmbeddingInput: nat := 2048
  const UploadBatchSize: nat := 100

  type Vector = seq<real>

  /** The `task_type` hint sent with an embedding request. */
  datatype Task = RetrievalDocument | RetrievalQuery

  /** What a call into a hosted service gives back: a value, or an exception
      carrying its message. */
  datatype Reply<T> = Ok(value: T) | Raised(message: string)

  /** `{"id": ..., "values": ..., "metadata": {"text": ...}}` */
  datatype Record = Record(id: string, values: Vector, text: string)

  /** How an ingestion ends: normally, or with the exception that aborted it. */
  datatype Outcome = Success | Failure(message: string)

  /** `genai.embed_content`: the reply to the n-th embedding request of a run. */
  type EmbedOracle = (nat, string, Task) -> Reply<Vector>

  /** `index.upsert`: the reply to the n-th batch sent to the named index. */
  type UpsertOracle = (string, nat, seq<Record>) -> Outcome

  /** The embedding replies of one call of `get_embedding` (or of one chunk), and
      the contents it sent, one per oracle call. */
  datatype Attempt = Attempt(reply: Reply<Vector>, sent: seq<string>)

  const FailedPrefix := "Failed to get embedding: "
  const FailedAfterRetryPrefix := "Failed to get embedding after retry: "
  const QueryFailedPrefix := "Failed to get query embedding: "

  /** Truncation before embedding: longer texts are cut to their first 2048
      characters, shorter ones are left alone. */
  function Truncate(text: string): (t: string)
    ensures |t| == Min(|text|, MaxEmbeddingInput)
    ensures t <= text
    ensures |text| <= MaxEmbeddingInput ==> t == text
  {
    if |text| > MaxEmbeddingInput then text[..MaxEmbeddingInput] else text
  }

  /** An error is treated as rate limiting exactly when its lower-cased message
      mentions "rate limit" or "quota". */
  predicate IsRateLimit(message: string) {
    Contains(Lower(message), "rate limit") || Contains(Lower(message), "quota")
  }

  /** `get_embedding`: truncate, ask for a document embedding, and on a
      rate-limit error ask once more. The n-th request of the run is the first
      one this call makes. */
  function GetEmbedding(text: string, embed: EmbedOracle, n: nat): (a: Attempt)
    ensures 1 <= |a.sent| <= 2
    ensures forall i :: 0 <= i < |a.sent| ==> a.sent[i] == Truncate(text)
    ensures var first := embed(n, Truncate(text), RetrievalDocument);
      |a.sent| == 2 <==> first.Raised? && IsRateLimit(first.message)
    ensures var last := embed(n + |a.sent| - 1, Truncate(text), RetrievalDocument);
      (last.Ok? ==> a.reply == last) &&
      (last.Raised? ==>
        a.reply == Raised((if |a.sent| == 2 then FailedAfterRetryPrefix else FailedPrefix) + last.message))
  {
    var t := Truncate(text);
    match embed(n, t, RetrievalDocument)
    case Ok(v) => Attempt(Ok(v), [t])
    case Raised(e) =>
      if IsRateLimit(e) then
        match embed(n + 1, t, RetrievalDocument)
        case Ok(v) => Attempt(Ok(v), [t, t])
        case Raised(e2) => Attempt(Raised(FailedAfterRetryPrefix + e2), [t, t])
      else
        Attempt(Raised(FailedPrefix + e), [t])
  }

  /** `get_query_embedding`: truncate and ask once for a query embedding; there
      is no retry. */
  function GetQueryEmbedding(text: string, embed: EmbedOracle, n: nat): (a: Attempt)
    ensures a.sent == [Truncate(text)]
    ensures var r := embed(n, Truncate(text), RetrievalQuery);
      (r.Ok? ==> a.reply == r) &&
      (r.Raised? ==> a.reply == Raised(QueryFailedPrefix + r.message))
  {
    var t := Truncate(text);
    match embed(n, t, RetrievalQuery)
    case Ok(v) => Attempt(Ok(v), [t])
    case Raised(e) => Attempt(Raised(QueryFailedPrefix + e), [t])
  }

  /** The try/except around `get_embedding` for one chunk in `embed_chunks_store`:
      a failure whose (wrapped) message mentions rate limiting calls
      `get_embedding` a second time; any other failure, or a second failure,
      is raised as it is. */
  function ChunkEmbedding(chunk: string, embed: EmbedOracle, n: nat): (a: Attempt)
    ensures 1 <= |a.sent| <= 4
    ensures forall i :: 0 <= i < |a.sent| ==> a.sent[i] == Truncate(chunk)
    ensures a.reply.Ok? ==> a.reply == embed(n + |a.sent| - 1, Truncate(chunk), RetrievalDocument)
    ensures var first := GetEmbedding(chunk, embed, n);
      |a.sent| > |first.sent| <==> first.reply.Raised? && IsRateLimit(first.reply.message)
    ensures var first := GetEmbedding(chunk, embed, n);
      a.sent == first.sent +
        (if |a.sent| > |first.sent| then GetEmbedding(chunk, embed, n + |first.sent|).sent else [])
    ensures var first := GetEmbedding(chunk, embed, n);
      a.reply.Raised? ==>
        a.reply == (if |a.sent| > |first.sent| then GetEmbedding(chunk, embed, n + |first.sent|) else first).reply
  {
    var first := GetEmbedding(chunk, embed, n);
    if first.reply.Ok? || !IsRateLimit(first.reply.message) then first
    else
      var second := GetEmbedding(chunk, embed, n + |first.sent|);
      Attempt(second.reply, first.sent + second.sent)
  }

  /** Wrapping a message in a longer one keeps it classified as rate limiting. */
  lemma RateLimitWrapped(prefix: string, message: string)
    requires IsRateLimit(message)
    ensures IsRateLimit(prefix + message)
  {
    LowerAppend(prefix, message);
    var low := Lower(message);
    var k := if Contains(low, "rate limit") then "rate limit" else "quota";
    var i :| 0 <= i <= |low| - |k| && OccursAt(low, k, i);
    assert (Lower(prefix) + low)[|prefix| + i..|prefix| + i + |k|] == low[i..i + |k|];
    assert OccursAt(Lower(prefix) + low, k, |prefix| + i);
  }

  /** Because `get_embedding` keeps the rate-limit text in the message it raises,
      the retry in the chunk loop fires on top of the one inside `get_embedding`:
      a chunk whose every request is refused for rate limiting is sent four
      times before the ingestion fails. */
  lemma PersistentRateLimit(chunk: string, embed: EmbedOracle, n: nat)
    requires forall k :: n <= k < n + 4 ==>
      embed(k, Truncate(chunk), RetrievalDocument).Raised? &&
      IsRateLimit(embed(k, Truncate(chunk), RetrievalDocument).message)
    ensures var a := ChunkEmbedding(chunk, embed, n);
      |a.sent| == 4 &&
      a.reply == Raised(FailedAfterRetryPrefix + embed(n + 3, Truncate(chunk), RetrievalDocument).message)
  {
    var t := Truncate(chunk);
    assert embed(n, t, RetrievalDocument).Raised? && IsRateLimit(embed(n, t, RetrievalDocument).message);
    assert embed(n + 1, t, RetrievalDocument).Raised?;
    var first := GetEmbedding(chunk, embed, n);
    RateLimitWrapped(FailedAfterRetryPrefix, embed(n + 1, t, RetrievalDocument).message);
    assert first.reply == Raised(FailedAfterRetryPrefix + embed(n + 1, t, RetrievalDocument).message);
    assert embed(n + 2, t, RetrievalDocument).Raised? && IsRateLimit(embed(n + 2, t, RetrievalDocument).message);
    assert embed(n + 3, t, RetrievalDocument).Raised?;
  }

  /** `"chunk-" + str(i)` */
  function ChunkId(i: nat): string {
    "chunk-" + NatToString(i)
  }

  /** Chunk ids are distinct, so every record of a document has its own id. */
  lemma ChunkIdInjective(i: nat, j: nat)
    requires ChunkId(i) == ChunkId(j)
    ensures i == j
  {
    assert NatToString(i) == ChunkId(i)[6..] == ChunkId(j)[6..] == NatToString(j);
    NatToStringInjective(i, j);
  }

  /** The embedding loop's result so far: the records built, or the exception
      that stopped it, together with every content sent to the embedding oracle. */
  datatype Ingestion = Ingestion(reply: Reply<seq<Record>>, sent: seq<string>)

  /** The embedding loop of `embed_chunks_store` over `chunks`, chunk by chunk:
      on success one record per chunk, in order, with id `chunk-<i>` and the
      chunk as its text. */
  function EmbedAll(chunks: seq<string>, embed: EmbedOracle): (r: Ingestion)
    ensures |r.sent| <= 4 * |chunks|
    ensures r.reply.Ok? ==> |r.sent| >= |chunks|
    ensures r.reply.Ok? ==>
      |r.reply.value| == |chunks| &&
      forall i :: 0 <= i < |chunks| ==> r.reply.value[i].id == ChunkId(i) && r.reply.value[i].text == chunks[i]
    decreases |chunks|
  {
    if chunks == [] then Ingestion(Ok([]), [])
    else
      var i := |chunks| - 1;
      var prev := EmbedAll(chunks[..i], embed);
      if prev.reply.Raised? then prev
      else
        var a := ChunkEmbedding(chunks[i], embed, |prev.sent|);
        match a.reply
        case Ok(v) => Ingestion(Ok(prev.reply.value + [Record(ChunkId(i), v, chunks[i])]), prev.sent + a.sent)
        case Raised(e) => Ingestion(Raised(e), prev.sent + a.sent)
  }

  /** The attempt for chunk `i` of an ingestion whose first `i` chunks went
      through: its requests follow those of the earlier chunks. */
  function ChunkAttempt(chunks: seq<string>, embed: EmbedOracle, i: nat): Attempt
    requires i < |chunks|
  {
    ChunkEmbedding(chunks[i], embed, |EmbedAll(chunks[..i], embed).sent|)
  }

  /** `"values": embedding`: when the ingestion succeeds, every chunk's attempt
      succeeded and record `i` holds the vector returned for chunk `i`. */
  lemma EmbedAllRecords(chunks: seq<string>, embed: EmbedOracle)
    ensures var r := EmbedAll(chunks, embed);
      r.reply.Ok? ==> forall i :: 0 <= i < |chunks| ==> StoredAt(chunks, embed, i, r.reply.value)
  {
    var r := EmbedAll(chunks, embed);
    if r.reply.Ok? {
      forall i | 0 <= i < |chunks| ensures StoredAt(chunks, embed, i, r.reply.value) {
        EmbedAllRecordAt(chunks, embed, i);
      }
    }
  }

  lemma {:induction false} EmbedAllRecordAt(chunks: seq<string>, embed: EmbedOracle, i: nat)
    requires i < |chunks| && EmbedAll(chunks, embed).reply.Ok?
    ensures StoredAt(chunks, embed, i, EmbedAll(chunks, embed).reply.value)
    decreases |chunks|
  {
    var m := |chunks| - 1;
    var earlier := EmbedAllOkStep(chunks, embed);
    if i < m {
      EmbedAllRecordAt(chunks[..m], embed, i);
      StoredInPrefix(chunks, embed, m, i, earlier, EmbedAll(chunks, embed).reply.value);
    }
  }

  /** A successful ingestion extends the successful ingestion of all chunks
      but the last, and the last record is that chunk's. */
  lemma EmbedAllOkStep(chunks: seq<string>, embed: EmbedOracle) returns (earlier: seq<Record>)
    requires chunks != [] && EmbedAll(chunks, embed).reply.Ok?
    ensures var m := |chunks| - 1;
      EmbedAll(chunks[..m], embed).reply == Ok(earlier) &&
      StoredAt(chunks, embed, m, EmbedAll(chunks, embed).reply.value) &&
      |earlier| <= |EmbedAll(chunks, embed).reply.value| &&
      EmbedAll(chunks, embed).reply.value[..|earlier|] == earlier &&
      EmbedAll(chunks, embed).sent == EmbedAll(chunks[..m], embed).sent + ChunkAttempt(chunks, embed, m).sent
  {
    var m := |chunks| - 1;
    var prev := EmbedAll(chunks[..m], embed);
    var a := ChunkAttempt(chunks, embed, m);
    earlier := prev.reply.value;
    var records := EmbedAll(chunks, embed).reply.value;
    assert records == earlier + [Record(ChunkId(m), a.reply.value, chunks[m])];
    assert records[..|earlier|] == earlier;
  }

  /** The requests of the first `k` chunks' attempts, one chunk after another. */
  function AllSent(chunks: seq<string>, embed: EmbedOracle, k: nat): seq<string>
    requires k <= |chunks|
  {
    if k == 0 then [] else AllSent(chunks, embed, k - 1) + ChunkAttempt(chunks, embed, k - 1).sent
  }

  /** On success the ingestion sent exactly the requests of every chunk's
      attempt, chunk by chunk in order, and nothing else. */
  lemma {:induction false} EmbedAllSent(chunks: seq<string>, embed: EmbedOracle)
    ensures EmbedAll(chunks, embed).reply.Ok? ==> EmbedAll(chunks, embed).sent == AllSent(chunks, embed, |chunks|)
    decreases |chunks|
  {
    if chunks != [] && EmbedAll(chunks, embed).reply.Ok? {
      var m := |chunks| - 1;
      var _ := EmbedAllOkStep(chunks, embed);
      EmbedAllSent(chunks[..m], embed);
      AllSentInPrefix(chunks, embed, m, m);
    }
  }

  lemma {:induction false} AllSentInPrefix(chunks: seq<string>, embed: EmbedOracle, m: nat, k: nat)
    requires k <= m <= |chunks|
    ensures AllSent(chunks[..m], embed, k) == AllSent(chunks, embed, k)
    decreases k
  {
    if k > 0 {
      AllSentInPrefix(chunks, embed, m, k - 1);
      assert chunks[..m][..k - 1] == chunks[..k - 1] && chunks[..m][k - 1] == chunks[k - 1];
      assert ChunkAttempt(chunks[..m], embed, k - 1) == ChunkAttempt(chunks, embed, k - 1);
    }
  }

  lemma StoredInPrefix(chunks: seq<string>, embed: EmbedOracle, m: nat, i: nat,
                       earlier: seq<Record>, records: seq<Record>)
    requires i < m <= |chunks| && StoredAt(chunks[..m], embed, i, earlier)
    requires |earlier| <= |records| && records[..|earlier|] == earlier
    ensures StoredAt(chunks, embed, i, records)
  {
    assert chunks[..m][..i] == chunks[..i] && chunks[..m][i] == chunks[i];
    assert records[i] == earlier[i];
  }

  /** Record `i` of `records` holds the vector of chunk `i`, whose attempt
      succeeded after the earlier chunks went through. */
  predicate StoredAt(chunks: seq<string>, embed: EmbedOracle, i: nat, records: seq<Record>)
    requires i < |chunks|
  {
    EmbedAll(chunks[..i], embed).reply.Ok? && ChunkAttempt(chunks, embed, i).reply.Ok? &&
    i < |records| && records[i].values == ChunkAttempt(chunks, embed, i).reply.value
  }

  /** A failing chunk fails the ingestion: when it ends with an exception,
      there is a chunk `i` such that every chunk before it went through, its
      own attempt raised that very exception, and nothing was sent after it. */
  lemma {:induction false} EmbedAllFailure(chunks: seq<string>, embed: EmbedOracle)
    ensures var r := EmbedAll(chunks, embed);
      r.reply.Raised? ==>
        exists i :: 0 <= i < |chunks| && FailsAt(chunks, embed, i, r)
    decreases |chunks|
  {
    var r := EmbedAll(chunks, embed);
    if chunks != [] && r.reply.Raised? {
      var m := |chunks| - 1;
      var prefix := chunks[..m];
      var prev := EmbedAll(prefix, embed);
      EmbedAllRaisedStep(chunks, embed);
      if prev.reply.Raised? {
        EmbedAllFailure(prefix, embed);
        var i :| 0 <= i < |prefix| && FailsAt(prefix, embed, i, prev);
        FailsInPrefix(chunks, embed, m, i, r);
      }
    }
  }

  /** A failed ingestion either failed already on all chunks but the last, with
      the same result, or fails at the last chunk. */
  lemma EmbedAllRaisedStep(chunks: seq<string>, embed: EmbedOracle)
    requires chunks != [] && EmbedAll(chunks, embed).reply.Raised?
    ensures var m := |chunks| - 1;
      var prev := EmbedAll(chunks[..m], embed);
      if prev.reply.Raised? then EmbedAll(chunks, embed) == prev
      else FailsAt(chunks, embed, m, EmbedAll(chunks, embed))
  {
  }

  lemma FailsInPrefix(chunks: seq<string>, embed: EmbedOracle, m: nat, i: nat, r: Ingestion)
    requires i < m <= |chunks| && FailsAt(chunks[..m], embed, i, r)
    ensures FailsAt(chunks, embed, i, r)
  {
    assert chunks[..m][..i] == chunks[..i] && chunks[..m][i] == chunks[i];
  }

  /** Ingestion `r` of `chunks` stopped at chunk `i`: the chunks before it went
      through, its attempt raised the exception `r` ends with, and `r` sent the
      requests of the earlier chunks and of this one, nothing more. */
  predicate FailsAt(chunks: seq<string>, embed: EmbedOracle, i: nat, r: Ingestion)
    requires i < |chunks|
  {
    EmbedAll(chunks[..i], embed).reply.Ok? && ChunkAttempt(chunks, embed, i).reply.Raised? &&
    r.reply == Raised(ChunkAttempt(chunks, embed, i).reply.message) &&
    r.sent == EmbedAll(chunks[..i], embed).sent + ChunkAttempt(chunks, embed, i).sent
  }

  /** A failure aborts the ingestion: once the first `i` chunks have failed, the
      later chunks send nothing and change nothing. */
  lemma {:induction false} EmbedAllStopsAtFailure(chunks: seq<string>, embed: EmbedOracle, i: nat)
    requires i <= |chunks| && EmbedAll(chunks[..i], embed).reply.Raised?
    ensures EmbedAll(chunks, embed) == EmbedAll(chunks[..i], embed)
    decreases |chunks|
  {
    if i < |chunks| {
      var m := |chunks| - 1;
      assert chunks[..m][..i] == chunks[..i];
      EmbedAllStopsAtFailure(chunks[..m], embed, i);
    } else {
      assert chunks[..i] == chunks;
    }
  }

  /** The upsert batches: `vectors[i:i + 100]` for `i` in `range(0, len(vectors), 100)`. */
  function Batches(vectors: seq<Record>): seq<seq<Record>> {
    Windows(vectors, UploadBatchSize, UploadBatchSize, 0)
  }

  /** There are `ceil(n / 100)` batches, each of 1 to 100 records, and together,
      in order, they are exactly the records. */
  lemma BatchesPartition(vectors: seq<Record>)
    ensures var bs := Batches(vectors);
      (vectors == [] ==> bs == []) &&
      (vectors != [] ==> (|bs| - 1) * UploadBatchSize < |vectors| <= |bs| * UploadBatchSize) &&
      (forall b :: b in bs ==> 0 < |b| <= UploadBatchSize) &&
      Flatten(bs) == vectors
  {
    WindowsCount(vectors, UploadBatchSize, UploadBatchSize, 0);
    WindowsPartition(vectors, UploadBatchSize, 0);
  }

  /** The batches sent to the index by an upload that stops at the first failed
      batch: a prefix of `Batches(vectors)`, every batch but the last accepted,
      and the outcome is the last batch's failure, or success when every batch
      was sent and accepted. */
  predicate UploadedUntilFailure(indexName: string, vectors: seq<Record>, upsert: UpsertOracle,
                                 outcome: Outcome, submitted: seq<seq<Record>>)
  {
    var all := Batches(vectors);
    |submitted| <= |all| && submitted == all[..|submitted|] &&
    (forall j :: 0 <= j < |submitted| - 1 ==> upsert(indexName, j, submitted[j]) == Success) &&
    (outcome == Success <==>
      submitted == all && forall j :: 0 <= j < |submitted| ==> upsert(indexName, j, submitted[j]) == Success) &&
    (outcome.Failure? ==>
      submitted != [] && outcome == upsert(indexName, |submitted| - 1, submitted[|submitted| - 1]))
  }

  /** The body of the embedding loop for one chunk: `get_embedding`, and once
      more when the exception it raised mentions rate limiting. */
  method EmbedWithRetry(chunk: string, embed: EmbedOracle, n: nat) returns (reply: Reply<Vector>, tried: seq<string>)
    ensures Attempt(reply, tried) == ChunkEmbedding(chunk, embed, n)
  {
    var attempt := GetEmbedding(chunk, embed, n);
    tried := attempt.sent;
    if attempt.reply.Raised? && IsRateLimit(attempt.reply.message) {
      attempt := GetEmbedding(chunk, embed, n + |tried|);
      tried := tried + attempt.sent;
    }
    reply := attempt.reply;
  }

  /** The embedding loop of `embed_chunks_store`: one chunk at a time, with the
      retry on a rate-limit failure; the first failure that is not retried
      aborts the loop. */
  method EmbedChunks(chunks: seq<string>, embed: EmbedOracle) returns (reply: Reply<seq<Record>>, sent: seq<string>)
    ensures Ingestion(reply, sent) == EmbedAll(chunks, embed)
  {
    var vectors: seq<Record> := [];
    sent := [];
    for i := 0 to |chunks|
      invariant EmbedAll(chunks[..i], embed) == Ingestion(Ok(vectors), sent)
    {
      assert chunks[..i + 1][..i] == chunks[..i];
      var chunk := chunks[i];
      var attempt, tried := EmbedWithRetry(chunk, embed, |sent|);
      sent := sent + tried;
      if attempt.Raised? {
        EmbedAllStopsAtFailure(chunks, embed, i + 1);
        reply := Raised(attempt.message);
        return;
      }
      vectors := vectors + [Record(ChunkId(i), attempt.value, chunk)];
    }
    assert chunks[..|chunks|] == chunks;
    reply := Ok(vectors);
  }

  /** The upload loop of `embed_chunks_store`: `vectors[i:i + 100]` for `i` in
      `range(0, len(vectors), 100)`, raising at the first batch the index refuses. */
  method UploadBatches(indexName: string, vectors: seq<Record>, upsert: UpsertOracle)
    returns (outcome: Outcome, submitted: seq<seq<Record>>)
    ensures UploadedUntilFailure(indexName, vectors, upsert, outcome, submitted)
  {
    var all := Batches(vectors);
    submitted := [];
    var i: nat := 0;
    while i < |vectors|
      invariant submitted + Windows(vectors, UploadBatchSize, UploadBatchSize, i) == all
      invariant forall j :: 0 <= j < |submitted| ==> upsert(indexName, j, submitted[j]) == Success
      decreases |vectors| - i
    {
      var batch := vectors[i..Min(i + UploadBatchSize, |vectors|)];
      var rest := Windows(vectors, UploadBatchSize, UploadBatchSize, i + UploadBatchSize);
      WindowsUnfold(vectors, UploadBatchSize, UploadBatchSize, i);
      PrefixStep(all, submitted, batch, rest);
      var result := upsert(indexName, |submitted|, batch);
      if result.Failure? {
        UploadStopped(indexName, vectors, upsert, submitted, batch);
        outcome, submitted := result, submitted + [batch];
        return;
      }
      AcceptedStep(indexName, upsert, submitted, batch);
      submitted := submitted + [batch];
      i := i + UploadBatchSize;
    }
    assert submitted == all;
    outcome := Success;
  }

  /** An upload that stops at a refused batch after accepted ones ends as the
      predicate says. */
  lemma UploadStopped(indexName: string, vectors: seq<Record>, upsert: UpsertOracle,
                      accepted: seq<seq<Record>>, batch: seq<Record>)
    requires |accepted| + 1 <= |Batches(vectors)| && accepted + [batch] == Batches(vectors)[..|accepted| + 1]
    requires forall j :: 0 <= j < |accepted| ==> upsert(indexName, j, accepted[j]) == Success
    requires upsert(indexName, |accepted|, batch).Failure?
    ensures UploadedUntilFailure(indexName, vectors, upsert, upsert(indexName, |accepted|, batch), accepted + [batch])
  {
    var submitted := accepted + [batch];
    forall j | 0 <= j < |submitted| - 1 ensures upsert(indexName, j, submitted[j]) == Success {
      assert submitted[j] == accepted[j];
    }
    assert submitted[|submitted| - 1] == batch;
  }

  lemma AcceptedStep(indexName: string, upsert: UpsertOracle, accepted: seq<seq<Record>>, batch: seq<Record>)
    requires forall j :: 0 <= j < |accepted| ==> upsert(indexName, j, accepted[j]) == Success
    requires upsert(indexName, |accepted|, batch) == Success
    ensures forall j :: 0 <= j < |accepted| + 1 ==> upsert(indexName, j, (accepted + [batch])[j]) == Success
  {
    forall j | 0 <= j < |accepted| + 1 ensures upsert(indexName, j, (accepted + [batch])[j]) == Success {
      if j < |accepted| {
        assert (accepted + [batch])[j] == accepted[j];
      }
    }
  }

  /** `embed_chunks_store`: embed every chunk, then upsert the records in batches
      of 100. Returns how the ingestion ended, every content sent to the
      embedding oracle and every batch sent to the index; nothing is uploaded
      when an embedding fails. */
  method EmbedChunksStore(indexName: string, chunks: seq<string>, embed: EmbedOracle, upsert: UpsertOracle)
    returns (outcome: Outcome, sent: seq<string>, submitted: seq<seq<Record>>)
    ensures sent == EmbedAll(chunks, embed).sent
    ensures EmbedAll(chunks, embed).reply.Raised? ==>
      outcome == Failure(EmbedAll(chunks, embed).reply.message) && submitted == []
    ensures EmbedAll(chunks, embed).reply.Ok? ==>
      UploadedUntilFailure(indexName, EmbedAll(chunks, embed).reply.value, upsert, outcome, submitted)
  {
    var reply;
    reply, sent := EmbedChunks(chunks, embed);
    if reply.Raised? {
      outcome, submitted := Failure(reply.message), [];
      return;
    }
    outcome, submitted := UploadBatches(indexName, reply.value, upsert);
  }
}
