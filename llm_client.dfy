/** The query side of the service: embed the question, search the index, keep
    the relevant matches (or the best one), join their texts into a context and
    ask the generative model, falling back to a keyword-overlap answer built
    locally when generation fails. */
module LlmClient {
  import opened PyText
  import opened Seqs
  import opened VectorStore

  const TopK: nat := 5
  const RelevanceThreshold: real := 0.75
  const MaxFallbackSentences: nat := 3

  const NoRelevantInformation := "I couldn't find relevant information in the document to answer your question."
  const FallbackPreamble := "Based on the document:\n\n"
  // Written as two literals so that its characters can be reasoned about one by one.
  const NoSpecificAnswer := "I found " + "some relevant information but couldn't extract a specific answer to your question."
  const Separator := "\n\n"
  const QueryErrorPrefix := "Error processing query: "

  /** A search hit: its similarity score and the `metadata["text"]` of its record. */
  datatype Match = Match(score: real, text: string)

  /** `pc.Index(name).query(vector, top_k, namespace)`: the matches, best first, or an exception. */
  type SearchOracle = (string, Vector, nat, string) -> Reply<seq<Match>>

  /** The Gemini generation call for a context and a question: the answer text, or an exception. */
  type GenerateOracle = (string, string) -> Reply<string>

  /** The calls one query makes to the hosted services, in order. */
  datatype ServiceCall =
    | EmbedRequest(content: string, task: Task)
    | SearchRequest(index: string, topK: nat, namespace: string)
    | GenerateRequest(context: string, question: string)

  datatype QueryRun = QueryRun(answer: string, calls: seq<ServiceCall>)

  // ---------------------------------------------------------------- retrieval

  predicate IsRelevant(m: Match) {
    m.score >= RelevanceThreshold
  }

  /** The matches used as context: those scoring at least 0.75, in the order of
      the search; when there are matches but none reaches 0.75, the first (best)
      one alone; no matches give nothing. */
  function RelevantMatches(matches: seq<Match>): (r: seq<Match>)
    ensures r == [] <==> matches == []
    ensures (exists i :: 0 <= i < |matches| && IsRelevant(matches[i])) ==> r == Filter(matches, IsRelevant)
    ensures (forall i :: 0 <= i < |matches| ==> !IsRelevant(matches[i])) && matches != [] ==> r == [matches[0]]
  {
    var relevant := Filter(matches, IsRelevant);
    RelevantFilterEmpty(matches);
    if relevant == [] && matches != [] then matches[..1] else relevant
  }

  lemma RelevantFilterEmpty(matches: seq<Match>)
    ensures Filter(matches, IsRelevant) == [] <==> forall i :: 0 <= i < |matches| ==> !IsRelevant(matches[i])
  {
    if exists i :: 0 <= i < |matches| && IsRelevant(matches[i]) {
      var i :| 0 <= i < |matches| && IsRelevant(matches[i]);
      FilterKeeps(matches, IsRelevant, matches[i]);
    }
  }

  /** The filtered matches are exactly the matches scoring at least 0.75, in the
      order the search returned them. */
  lemma RelevantFilterIsOrderedSubsequence(matches: seq<Match>)
    ensures var ix := FilterIndices(matches, IsRelevant);
      var kept := Filter(matches, IsRelevant);
      |ix| == |kept| &&
      (forall k :: 0 <= k < |ix| ==> ix[k] < |matches| && kept[k] == matches[ix[k]]) &&
      (forall k :: 0 < k < |ix| ==> ix[k - 1] < ix[k]) &&
      (forall j :: 0 <= j < |matches| ==> (IsRelevant(matches[j]) <==> j in ix))
  {
    FilterAt(matches, IsRelevant);
    FilterIndicesIncrease(matches, IsRelevant);
    FilterIndicesExact(matches, IsRelevant);
  }

  /** `m["metadata"]["text"] for m in matches` */
  function Texts(ms: seq<Match>): (ts: seq<string>)
    ensures |ts| == |ms|
    ensures forall i :: 0 <= i < |ms| ==> ts[i] == ms[i].text
  {
    seq(|ms|, i requires 0 <= i < |ms| => ms[i].text)
  }

  /** `"\n\n".join(m["metadata"]["text"] for m in relevant_matches)` */
  function Context(relevant: seq<Match>): string {
    Join(Separator, Texts(relevant))
  }

  /** One more relevant match adds a blank line and its text to the context,
      so the context is the match texts in order, separated by blank lines. */
  lemma ContextAppend(relevant: seq<Match>, m: Match)
    requires relevant != []
    ensures Context(relevant + [m]) == Context(relevant) + "\n\n" + m.text
  {
    assert Texts(relevant + [m]) == Texts(relevant) + [m.text];
    JoinAppend(Separator, Texts(relevant), m.text);
  }

  /** The context of a single match is its text. */
  lemma ContextSingle(m: Match)
    ensures Context([m]) == m.text
  {
    assert Texts([m]) == [m.text];
  }

  /** When no match reaches the threshold the context is exactly the text of
      the best match. */
  lemma BestMatchContext(matches: seq<Match>)
    requires matches != [] && forall i :: 0 <= i < |matches| ==> !IsRelevant(matches[i])
    ensures Context(RelevantMatches(matches)) == matches[0].text
  {
    assert Texts([matches[0]]) == [matches[0].text];
  }

  // ---------------------------------------------------------------- fallback answer

  /** A kept sentence: its stripped text and its keyword score. */
  datatype ScoredSentence = ScoredSentence(text: string, score: nat)

  /** `question.lower().split()` */
  function Keywords(question: string): (ks: seq<string>)
    ensures forall k :: k in ks ==> IsWord(k)
  {
    Words(Lower(question))
  }

  /** `sum(1 for keyword in keywords if keyword in sentence.lower())`: the
      keywords found in the sentence, a repeated keyword counted each time. */
  function Score(sentence: string, keywords: seq<string>): (n: nat)
    ensures n == |Filter(keywords, FoundIn(sentence))|
    ensures n <= |keywords|
    ensures n > 0 <==> exists i :: 0 <= i < |keywords| && Contains(Lower(sentence), keywords[i])
  {
    if keywords == [] then 0
    else
      var rest := Score(sentence, keywords[1..]);
      assert forall i :: 1 <= i < |keywords| ==> keywords[i] == keywords[1..][i - 1];
      (if Contains(Lower(sentence), keywords[0]) then 1 else 0) + rest
  }

  /** `keyword in sentence.lower()` as a condition on keywords. */
  function FoundIn(sentence: string): string -> bool {
    k => Contains(Lower(sentence), k)
  }

  function ScoreAll(sentences: seq<string>, keywords: seq<string>): (r: seq<ScoredSentence>)
    ensures |r| == |sentences|
    ensures forall i :: 0 <= i < |sentences| ==> r[i] == ScoredSentence(Strip(sentences[i]), Score(sentences[i], keywords))
  {
    seq(|sentences|, i requires 0 <= i < |sentences| =>
      ScoredSentence(Strip(sentences[i]), Score(sentences[i], keywords)))
  }

  predicate HasPositiveScore(e: ScoredSentence) {
    e.score > 0
  }

  /** The `(sentence.strip(), score)` pairs the loop appends: one per sentence
      with a positive score, in sentence order. */
  function KeptSentences(sentences: seq<string>, keywords: seq<string>): seq<ScoredSentence> {
    Filter(ScoreAll(sentences, keywords), HasPositiveScore)
  }

  /** Exactly the sentences with a positive score are kept: each kept pair has a
      positive score, and every sentence with one is kept, stripped. */
  lemma KeptSentencesExact(sentences: seq<string>, keywords: seq<string>)
    ensures forall e :: e in KeptSentences(sentences, keywords) ==> e.score > 0
    ensures forall i :: 0 <= i < |sentences| && Score(sentences[i], keywords) > 0 ==>
      ScoredSentence(Strip(sentences[i]), Score(sentences[i], keywords)) in KeptSentences(sentences, keywords)
  {
    var all := ScoreAll(sentences, keywords);
    forall i | 0 <= i < |sentences| && Score(sentences[i], keywords) > 0
      ensures ScoredSentence(Strip(sentences[i]), Score(sentences[i], keywords)) in KeptSentences(sentences, keywords)
    {
      assert all[i] in all;
      FilterKeeps(all, HasPositiveScore, all[i]);
    }
  }

  /** A sentence that contains a keyword has a non-blank stripped text, so the
      `if sent[0]` test of `generate_simple_answer` never drops a kept sentence. */
  lemma KeptTextsNonEmpty(sentences: seq<string>, keywords: seq<string>)
    requires forall k :: k in keywords ==> IsWord(k)
    ensures forall e :: e in KeptSentences(sentences, keywords) ==> e.text != []
  {
    var all := ScoreAll(sentences, keywords);
    forall e | e in KeptSentences(sentences, keywords) ensures e.text != [] {
      assert e in all && e.score > 0;
      var i :| 0 <= i < |all| && all[i] == e;
      ScoredSentenceNotBlank(sentences[i], keywords);
    }
  }

  lemma ScoredSentenceNotBlank(sentence: string, keywords: seq<string>)
    requires forall k :: k in keywords ==> IsWord(k)
    requires Score(sentence, keywords) > 0
    ensures Strip(sentence) != []
  {
    var j :| 0 <= j < |keywords| && Contains(Lower(sentence), keywords[j]);
    var k := keywords[j];
    assert k in keywords;
    ContainsFirstChar(Lower(sentence), k);
    var c :| 0 <= c < |Lower(sentence)| && Lower(sentence)[c] == k[0];
    assert !IsSpace(LowerChar(sentence[c]));
  }

  /** `sort(key=score, reverse=True)` is stable: `x` goes before the first
      element whose score is not higher. */
  function InsertByScore(x: ScoredSentence, sorted: seq<ScoredSentence>): seq<ScoredSentence> {
    if sorted == [] || x.score >= sorted[0].score then [x] + sorted
    else [sorted[0]] + InsertByScore(x, sorted[1..])
  }

  /** The stable descending sort of the kept sentences by score. */
  function SortByScoreDesc(s: seq<ScoredSentence>): seq<ScoredSentence> {
    if s == [] then [] else InsertByScore(s[0], SortByScoreDesc(s[1..]))
  }

  predicate SortedByScoreDesc(s: seq<ScoredSentence>) {
    forall i, j :: 0 <= i < j < |s| ==> s[i].score >= s[j].score
  }

  /** The elements of `s` with score `v`, in order. */
  function WithScore(s: seq<ScoredSentence>, v: nat): seq<ScoredSentence> {
    if s == [] then [] else (if s[0].score == v then [s[0]] else []) + WithScore(s[1..], v)
  }

  lemma {:induction false} InsertByScorePermutes(x: ScoredSentence, s: seq<ScoredSentence>)
    ensures multiset(InsertByScore(x, s)) == multiset(s) + multiset{x}
    decreases |s|
  {
    if s != [] && x.score < s[0].score {
      InsertByScorePermutes(x, s[1..]);
      assert s == [s[0]] + s[1..];
    }
  }

  lemma {:induction false} InsertByScoreSorted(x: ScoredSentence, s: seq<ScoredSentence>)
    requires SortedByScoreDesc(s)
    ensures SortedByScoreDesc(InsertByScore(x, s))
    decreases |s|
  {
    if s != [] {
      if x.score >= s[0].score {
        var r := [x] + s;
        forall i, j | 0 <= i < j < |r| ensures r[i].score >= r[j].score {
          if i == 0 { assert r[j].score <= s[0].score; }
        }
      } else {
        InsertByScoreSorted(x, s[1..]);
        InsertBelowHead(x, s);
      }
    }
  }

  /** An element that scores less than the head of a sorted list is inserted
      after the head, and the head still scores at least as much as anything
      after it. */
  lemma InsertBelowHead(x: ScoredSentence, s: seq<ScoredSentence>)
    requires SortedByScoreDesc(s) && s != [] && x.score < s[0].score
    requires SortedByScoreDesc(InsertByScore(x, s[1..]))
    ensures SortedByScoreDesc(InsertByScore(x, s))
  {
    var rest := InsertByScore(x, s[1..]);
    forall m | 0 <= m < |s[1..]| ensures s[1..][m].score <= s[0].score {
      assert s[1..][m] == s[m + 1];
    }
    InsertByScoreBounded(x, s[1..], s[0].score);
    var r := [s[0]] + rest;
    assert InsertByScore(x, s) == r;
    forall i, j | 0 <= i < j < |r| ensures r[i].score >= r[j].score {
      assert r[j] == rest[j - 1];
      if i > 0 {
        assert r[i] == rest[i - 1];
      }
    }
  }

  /** Inserting an element no higher than a bound into a list no higher than
      that bound gives a list no higher than it. */
  lemma {:induction false} InsertByScoreBounded(x: ScoredSentence, s: seq<ScoredSentence>, bound: nat)
    requires x.score <= bound
    requires forall m :: 0 <= m < |s| ==> s[m].score <= bound
    ensures forall m :: 0 <= m < |InsertByScore(x, s)| ==> InsertByScore(x, s)[m].score <= bound
    decreases |s|
  {
    if s != [] && x.score < s[0].score {
      var rest := InsertByScore(x, s[1..]);
      InsertByScoreBounded(x, s[1..], bound);
      assert InsertByScore(x, s) == [s[0]] + rest;
    }
  }

  /** Inserting `x` changes the elements of score `v` only by putting `x` first
      among them: no element of the same score is passed over. */
  lemma {:induction false} InsertByScoreStable(x: ScoredSentence, s: seq<ScoredSentence>, v: nat)
    ensures WithScore(InsertByScore(x, s), v) == (if x.score == v then [x] else []) + WithScore(s, v)
    decreases |s|
  {
    if s != [] && x.score < s[0].score {
      InsertByScoreStable(x, s[1..], v);
      assert InsertByScore(x, s) == [s[0]] + InsertByScore(x, s[1..]);
      assert ([s[0]] + InsertByScore(x, s[1..]))[1..] == InsertByScore(x, s[1..]);
    } else if s != [] {
      assert ([x] + s)[1..] == s;
    }
  }

  /** The sort is a permutation that orders by descending score and keeps the
      original order among equal scores. */
  lemma {:induction false} SortByScoreDescCorrect(s: seq<ScoredSentence>)
    ensures multiset(SortByScoreDesc(s)) == multiset(s)
    ensures SortedByScoreDesc(SortByScoreDesc(s))
    ensures forall v :: WithScore(SortByScoreDesc(s), v) == WithScore(s, v)
    decreases |s|
  {
    if s != [] {
      var rest := SortByScoreDesc(s[1..]);
      SortByScoreDescCorrect(s[1..]);
      InsertByScorePermutes(s[0], rest);
      InsertByScoreSorted(s[0], rest);
      assert s == [s[0]] + s[1..];
      forall v ensures WithScore(SortByScoreDesc(s), v) == WithScore(s, v) {
        InsertByScoreStable(s[0], rest, v);
      }
    }
  }

  /** `[s for (s, _) in relevant_sentences[:3] if s]` */
  function TopSentences(sorted: seq<ScoredSentence>): seq<string> {
    var top := sorted[..Min(MaxFallbackSentences, |sorted|)];
    Filter(seq(|top|, i requires 0 <= i < |top| => top[i].text), NonEmpty)
  }

  /** The preamble and the top sentences separated by blank lines, or the fixed
      message when there are none. */
  function Render(top: seq<string>): (answer: string)
    ensures answer == NoSpecificAnswer <==> top == []
  {
    if top != [] then
      var listed := FallbackPreamble + Join(Separator, top);
      assert FallbackPreamble[0] == 'B' && NoSpecificAnswer[0] == 'I';
      assert listed[0] == FallbackPreamble[0];
      listed
    else NoSpecificAnswer
  }

  /** `generate_simple_answer(context, question)` */
  function SimpleAnswer(context: string, question: string): string {
    var kept := KeptSentences(SplitOn(context, '.'), Keywords(question));
    Render(TopSentences(SortByScoreDesc(kept)))
  }

  /** `generate_simple_answer`: the loop that scores the sentences of the
      context, then the sort and the selection of the top three. */
  method GenerateSimpleAnswer(context: string, question: string) returns (answer: string)
    ensures answer == SimpleAnswer(context, question)
  {
    var keywords := Keywords(question);
    var sentences := SplitOn(context, '.');
    var relevant: seq<ScoredSentence> := [];
    for i := 0 to |sentences|
      invariant relevant == KeptSentences(sentences[..i], keywords)
    {
      var sentence := sentences[i];
      var score := Score(sentence, keywords);
      KeptSentencesStep(sentences, keywords, i);
      if score > 0 {
        relevant := relevant + [ScoredSentence(Strip(sentence), score)];
      }
    }
    assert sentences[..|sentences|] == sentences;
    var sorted := SortByScoreDesc(relevant);
    var top := TopSentences(sorted);
    if top != [] {
      answer := FallbackPreamble + Join(Separator, top);
    } else {
      answer := NoSpecificAnswer;
    }
  }

  lemma KeptSentencesStep(sentences: seq<string>, keywords: seq<string>, i: nat)
    requires i < |sentences|
    ensures var score := Score(sentences[i], keywords);
      KeptSentences(sentences[..i + 1], keywords) == KeptSentences(sentences[..i], keywords) +
        (if score > 0 then [ScoredSentence(Strip(sentences[i]), score)] else [])
  {
    var e := ScoredSentence(Strip(sentences[i]), Score(sentences[i], keywords));
    assert sentences[..i + 1] == sentences[..i] + [sentences[i]];
    ScoreAllAppend(sentences[..i], sentences[i], keywords);
    FilterAppend(ScoreAll(sentences[..i], keywords), e, HasPositiveScore);
  }

  lemma ScoreAllAppend(sentences: seq<string>, s: string, keywords: seq<string>)
    ensures ScoreAll(sentences + [s], keywords) ==
      ScoreAll(sentences, keywords) + [ScoredSentence(Strip(s), Score(s, keywords))]
  {
    var longer := ScoreAll(sentences + [s], keywords);
    var shorter := ScoreAll(sentences, keywords);
    var e := ScoredSentence(Strip(s), Score(s, keywords));
    forall j | 0 <= j < |longer| ensures longer[j] == (shorter + [e])[j] {
      if j < |sentences| {
        assert (sentences + [s])[j] == sentences[j];
      }
    }
  }

  /** A kept list whose texts are all non-blank loses nothing to the `if s` test. */
  lemma {:induction false} FilterNonEmptyKeepsAll(ts: seq<string>)
    requires forall t :: t in ts ==> t != []
    ensures Filter(ts, NonEmpty) == ts
    decreases |ts|
  {
    if ts != [] {
      assert forall t :: t in ts[1..] ==> t in ts;
      FilterNonEmptyKeepsAll(ts[1..]);
      assert ts[0] in ts;
      assert ts == [ts[0]] + ts[1..];
    }
  }

  /** No sentence contains any of the keywords. */
  predicate NoSentenceScores(sentences: seq<string>, keywords: seq<string>) {
    forall i :: 0 <= i < |sentences| ==> Score(sentences[i], keywords) == 0
  }

  /** Nothing is kept exactly when no sentence shares a keyword with the question. */
  lemma KeptSentencesEmpty(sentences: seq<string>, keywords: seq<string>)
    ensures KeptSentences(sentences, keywords) == [] <==> NoSentenceScores(sentences, keywords)
  {
    var kept := KeptSentences(sentences, keywords);
    KeptSentencesExact(sentences, keywords);
    if kept != [] {
      var e := kept[0];
      assert e in kept;
      assert e in ScoreAll(sentences, keywords) && e.score > 0;
      var i :| 0 <= i < |sentences| && ScoreAll(sentences, keywords)[i] == e;
      assert Score(sentences[i], keywords) > 0;
    }
  }

  /** The answer lists the texts of the first min(3, n) sorted sentences, n
      being the number kept: the blank test drops none of them. */
  lemma TopSentencesOfKept(sentences: seq<string>, keywords: seq<string>)
    requires forall k :: k in keywords ==> IsWord(k)
    ensures |SortByScoreDesc(KeptSentences(sentences, keywords))| == |KeptSentences(sentences, keywords)|
    ensures var sorted := SortByScoreDesc(KeptSentences(sentences, keywords));
      var n := Min(MaxFallbackSentences, |sorted|);
      TopSentences(sorted) == seq(n, i requires 0 <= i < n => sorted[i].text)
  {
    var kept := KeptSentences(sentences, keywords);
    var sorted := SortByScoreDesc(kept);
    SortByScoreDescCorrect(kept);
    KeptTextsNonEmpty(sentences, keywords);
    assert |sorted| == |kept| by {
      assert |multiset(sorted)| == |multiset(kept)|;
    }
    SortedTextsNonEmpty(kept, sorted);
  }

  lemma SortedTextsNonEmpty(kept: seq<ScoredSentence>, sorted: seq<ScoredSentence>)
    requires multiset(sorted) == multiset(kept)
    requires forall e :: e in kept ==> e.text != []
    ensures var n := Min(MaxFallbackSentences, |sorted|);
      TopSentences(sorted) == seq(n, i requires 0 <= i < n => sorted[i].text)
  {
    var n := Min(MaxFallbackSentences, |sorted|);
    var top := sorted[..n];
    var texts := seq(|top|, i requires 0 <= i < |top| => top[i].text);
    forall t | t in texts ensures t != [] {
      var i :| 0 <= i < |texts| && texts[i] == t;
      assert top[i] in multiset(sorted);
    }
    FilterNonEmptyKeepsAll(texts);
  }

  /** The fallback answer is the fixed message exactly when no sentence of the
      context shares a keyword with the question. */
  lemma SimpleAnswerNoMatch(context: string, question: string)
    ensures SimpleAnswer(context, question) == NoSpecificAnswer <==>
      NoSentenceScores(SplitOn(context, '.'), Keywords(question))
  {
    var sentences := SplitOn(context, '.');
    var keywords := Keywords(question);
    var kept := KeptSentences(sentences, keywords);
    var sorted := SortByScoreDesc(kept);
    var top := TopSentences(sorted);
    assert SimpleAnswer(context, question) == Render(top);
    KeptSentencesEmpty(sentences, keywords);
    if kept != [] {
      TopSentencesOfKept(sentences, keywords);
      assert |top| == Min(MaxFallbackSentences, |sorted|) >= 1;
    } else {
      assert sorted == [];
      assert top == Filter([], NonEmpty) == [];
    }
  }

  /** Otherwise it is the preamble followed by the texts of the first min(3, n)
      kept sentences in sorted order, where n sentences were kept. */
  lemma SimpleAnswerLists(context: string, question: string)
    requires KeptSentences(SplitOn(context, '.'), Keywords(question)) != []
    ensures var sorted := SortByScoreDesc(KeptSentences(SplitOn(context, '.'), Keywords(question)));
      var n := Min(MaxFallbackSentences, |sorted|);
      SimpleAnswer(context, question) == FallbackPreamble + Join(Separator, seq(n, i requires 0 <= i < n => sorted[i].text))
  {
    TopSentencesOfKept(SplitOn(context, '.'), Keywords(question));
  }

  // ---------------------------------------------------------------- answering

  /** `generate_answer_with_gemini`: the model's answer, stripped; when the
      call raises, the locally built fallback answer for the same context and
      question. */
  function GenerateAnswer(context: string, question: string, generate: GenerateOracle): (answer: string)
    ensures generate(context, question).Raised? ==> answer == SimpleAnswer(context, question)
    ensures generate(context, question).Ok? ==> answer == Strip(generate(context, question).value)
    ensures generate(context, question).Ok? ==>
      Contains(generate(context, question).value, answer) &&
      (answer != [] ==> !IsSpace(answer[0]) && !IsSpace(answer[|answer| - 1]))
  {
    match generate(context, question)
    case Ok(text) =>
      var answer := Strip(text);
      assert OccursAt(text, answer, LeadingSpaces(text));
      answer
    case Raised(_) => SimpleAnswer(context, question)
  }

  /** `process_single_query`. The question's embedding is the first request of
      the run; a failure there or in the search becomes an error string; with
      no matches the fixed "no relevant information" answer is returned and the
      model is never asked; otherwise the model is asked exactly once, with the
      context built from the relevant matches. */
  function ProcessSingleQuery(question: string, indexName: string, namespace: string,
                              embed: EmbedOracle, search: SearchOracle, generate: GenerateOracle): (run: QueryRun)
    ensures 1 <= |run.calls| <= 3
    ensures run.calls[0] == EmbedRequest(Truncate(question), RetrievalQuery)
    ensures var e := embed(0, Truncate(question), RetrievalQuery);
      e.Raised? ==> run.answer == QueryErrorPrefix + QueryFailedPrefix + e.message && |run.calls| == 1
    ensures var e := embed(0, Truncate(question), RetrievalQuery);
      e.Ok? ==> |run.calls| >= 2 && run.calls[1] == SearchRequest(indexName, TopK, namespace)
    ensures var e := embed(0, Truncate(question), RetrievalQuery);
      e.Ok? && search(indexName, e.value, TopK, namespace).Raised? ==>
        run.answer == QueryErrorPrefix + search(indexName, e.value, TopK, namespace).message && |run.calls| == 2
    ensures var e := embed(0, Truncate(question), RetrievalQuery);
      e.Ok? && search(indexName, e.value, TopK, namespace) == Ok([]) ==>
        run.answer == NoRelevantInformation && |run.calls| == 2
    ensures var e := embed(0, Truncate(question), RetrievalQuery);
      (|run.calls| == 3) <==>
        (e.Ok? && search(indexName, e.value, TopK, namespace).Ok? && search(indexName, e.value, TopK, namespace).value != [])
    ensures |run.calls| == 3 ==>
      var e := embed(0, Truncate(question), RetrievalQuery);
      var context := Context(RelevantMatches(search(indexName, e.value, TopK, namespace).value));
      run.calls[2] == GenerateRequest(context, question) &&
      run.answer == GenerateAnswer(context, question, generate)
  {
    var q := GetQueryEmbedding(question, embed, 0);
    var embedCall := EmbedRequest(Truncate(question), RetrievalQuery);
    match q.reply
    case Raised(e) => QueryRun(QueryErrorPrefix + e, [embedCall])
    case Ok(vector) =>
      var searchCall := SearchRequest(indexName, TopK, namespace);
      match search(indexName, vector, TopK, namespace)
      case Raised(e) => QueryRun(QueryErrorPrefix + e, [embedCall, searchCall])
      case Ok(matches) =>
        var relevant := RelevantMatches(matches);
        if relevant == [] then QueryRun(NoRelevantInformation, [embedCall, searchCall])
        else
          var context := Context(relevant);
          QueryRun(GenerateAnswer(context, question, generate), [embedCall, searchCall, GenerateRequest(context, question)])
  }
}
