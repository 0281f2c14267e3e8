/**
 Post-processing of a generated answer and the control flow of answer
 generation: reading the confidence tail and the answerability tag out of the
 merged response, choosing the citations the answer mentions, creating the one
 answer row of a question, and generating the answers of a whole project.
 The language model, the vector search, float parsing and uuid creation are
 parameters.
 */
module AnswerService {
  import opened Wrappers
  import opened Text
  import opened Database

  // ---------------------------------------------------------------------------
  // Parsing the merged response

  const ConfidenceMarker: string := "CONFIDENCE:"
  const InsufficientMarker: string := "INSUFFICIENT_DATA"
  const DefaultConfidence: real := 0.5

  /** `float(token)`: the value of a token, or none where Python raises `ValueError`. */
  type FloatParser = string -> Option<real>

  /** The final `:` of the marker occurs nowhere else in it. */
  lemma ConfidenceMarkerUnique()
    ensures LastCharUnique(ConfidenceMarker)
  {
  }

  /** `max(0.0, min(1.0, x))` */
  function Clamp(x: real): (r: real)
    ensures 0.0 <= r <= 1.0
    ensures 0.0 <= x <= 1.0 ==> r == x
    ensures x < 0.0 ==> r == 0.0
    ensures x > 1.0 ==> r == 1.0
  {
    var m := if x < 1.0 then x else 1.0;
    if m > 0.0 then m else 0.0
  }

  /** The confidence the text after the marker yields: its first whitespace-separated
      token parsed and clamped, or the default when there is no token (`IndexError`) or
      the token does not parse (`ValueError`). */
  function TailConfidence(tail: string, parse: FloatParser): (c: real)
    ensures 0.0 <= c <= 1.0
    ensures |Split(tail)| == 0 ==> c == DefaultConfidence
    ensures |Split(tail)| > 0 && parse(Split(tail)[0]).None? ==> c == DefaultConfidence
    ensures |Split(tail)| > 0 && parse(Split(tail)[0]).Some? ==> c == Clamp(parse(Split(tail)[0]).value)
  {
    var tokens := Split(Strip(tail));
    SplitStrip(tail);
    if |tokens| == 0 then DefaultConfidence
    else match parse(tokens[0])
      case None => DefaultConfidence
      case Some(v) => Clamp(v)
  }

  datatype ParsedAnswer = ParsedAnswer(text: string, confidence: real, answerable: Answerability)

  /** `parse_answer_response`: the confidence comes from the text after the last marker,
      the answer is partial exactly when the insufficient-data tag occurs anywhere, and the
      displayed text is what precedes the last marker, stripped. */
  function ParseAnswerResponse(response: string, parse: FloatParser): (r: ParsedAnswer)
    ensures 0.0 <= r.confidence <= 1.0
    ensures r.answerable == Partial <==> Contains(response, InsufficientMarker)
    ensures r.answerable == Yes <==> !Contains(response, InsufficientMarker)
    ensures !Contains(response, ConfidenceMarker) ==>
      r.text == response && r.confidence == DefaultConfidence
    ensures |r.text| <= |response|
  {
    var answerable := if Contains(response, InsufficientMarker) then Partial else Yes;
    match LastIndexOf(response, ConfidenceMarker)
    case None =>
      ParsedAnswer(response, DefaultConfidence, answerable)
    case Some(k) =>
      var confidence := TailConfidence(LastSplitPiece(response, ConfidenceMarker), parse);
      ParsedAnswer(Strip(response[..k]), confidence, answerable)
  }

  /** With the marker present, the confidence is read from the text after its last
      occurrence, and the displayed text is what precedes that occurrence, stripped. */
  lemma ParseAnswerResponseMarked(response: string, parse: FloatParser, k: int)
    requires IsLastOccurrence(response, ConfidenceMarker, k)
    ensures var r := ParseAnswerResponse(response, parse);
      && r.text == Strip(response[..k])
      && r.confidence == TailConfidence(response[k + |ConfidenceMarker|..], parse)
  {
    ConfidenceMarkerUnique();
    LastSplitPieceAfterLast(response, ConfidenceMarker, k);
    var j := LastIndexOf(response, ConfidenceMarker).value;
    LastOccurrenceUnique(response, ConfidenceMarker, j, k);
  }

  /** The marker has one last occurrence, so the text and confidence are determined by it. */
  lemma LastOccurrenceUnique(h: string, n: string, i: int, j: int)
    requires IsLastOccurrence(h, n, i) && IsLastOccurrence(h, n, j)
    ensures i == j
  {
  }

  // ---------------------------------------------------------------------------
  // Citations

  /** A chunk as the vector search returns it; a metadata key may be missing. */
  datatype ContextChunk = ContextChunk(
    id: string,
    text: string,
    docId: Option<string>,
    docName: Option<string>,
    page: Option<int>)

  /** `metadata.get("doc_name", "")` */
  function DocNameOf(c: ContextChunk): string {
    c.docName.GetOr("")
  }

  /** `metadata.get("page", 0)` */
  function PageOf(c: ContextChunk): int {
    c.page.GetOr(0)
  }

  /** `f"{doc_name}_p{page}"` */
  function CitationKey(docName: string, page: int): string {
    docName + "_p" + IntToString(page)
  }

  /** The length of the longest suffix of `s` without an underscore. */
  function TailWithoutUnderscore(s: string): (n: nat)
    ensures n <= |s|
  {
    if |s| == 0 || s[|s| - 1] == '_' then 0 else 1 + TailWithoutUnderscore(s[..|s| - 1])
  }

  lemma {:induction false} TailAfterUnderscore(d: string, t: string)
    requires forall k :: 0 <= k < |t| ==> t[k] != '_'
    ensures TailWithoutUnderscore(d + "_" + t) == |t|
    decreases |t|
  {
    var s := d + "_" + t;
    if |t| > 0 {
      var t' := t[..|t| - 1];
      assert s[..|s| - 1] == d + "_" + t';
      TailAfterUnderscore(d, t');
    } else {
      assert s[|s| - 1] == '_';
    }
  }

  /** Text after the last underscore determines both halves. */
  lemma SplitAtLastUnderscore(d1: string, t1: string, d2: string, t2: string)
    requires d1 + "_" + t1 == d2 + "_" + t2
    requires forall k :: 0 <= k < |t1| ==> t1[k] != '_'
    requires forall k :: 0 <= k < |t2| ==> t2[k] != '_'
    ensures d1 == d2 && t1 == t2
  {
    var key := d1 + "_" + t1;
    TailAfterUnderscore(d1, t1);
    TailAfterUnderscore(d2, t2);
    assert d1 == key[..|d1|] == d2;
    assert t1 == key[|d1| + 1..] == t2;
  }

  /** The page number is the text after the last underscore of the key, so distinct
      (document name, page) pairs have distinct keys. */
  lemma CitationKeyInjective(d1: string, p1: int, d2: string, p2: int)
    requires CitationKey(d1, p1) == CitationKey(d2, p2)
    ensures d1 == d2 && p1 == p2
  {
    var t1 := "p" + IntToString(p1);
    var t2 := "p" + IntToString(p2);
    assert CitationKey(d1, p1) == d1 + "_" + t1;
    assert CitationKey(d2, p2) == d2 + "_" + t2;
    SplitAtLastUnderscore(d1, t1, d2, t2);
    PrefixCancel("p", IntToString(p1), IntToString(p2));
    IntToStringInjective(p1, p2);
  }

  const SnippetLength: nat := 200

  /** `text[:200] + "..." if len(text) > 200 else text` */
  function Snippet(text: string): (s: string)
    ensures |s| <= SnippetLength + 3
    ensures |text| <= SnippetLength ==> s == text
    ensures |text| > SnippetLength ==>
      |s| == SnippetLength + 3 && s[..SnippetLength] == text[..SnippetLength] && s[SnippetLength..] == "..."
  {
    if |text| > SnippetLength then text[..SnippetLength] + "..." else text
  }

  /** The answer mentions the chunk's source: its lower-cased document name or
      `"page N"` occurs in the lower-cased answer. */
  predicate Mentioned(answerText: string, c: ContextChunk) {
    var lowered := Lower(answerText);
    Contains(lowered, Lower(DocNameOf(c))) || Contains(lowered, "page " + IntToString(PageOf(c)))
  }

  /** A chunk with no document name is mentioned by every answer. */
  lemma NamelessAlwaysMentioned(answerText: string, c: ContextChunk)
    requires DocNameOf(c) == ""
    ensures Mentioned(answerText, c)
  {
    assert Lower("") == "";
    EmptyOccursEverywhere(Lower(answerText));
  }

  function CitationOf(c: ContextChunk): Citation {
    Citation(c.docId.GetOr(""), DocNameOf(c), PageOf(c), Snippet(c.text), c.id)
  }

  /** The `seen` keys of a citation list. */
  function Keys(cs: seq<Citation>): set<string> {
    set c | c in cs :: CitationKey(c.docName, c.page)
  }

  /** Whether `extract_citations` cites chunk `c` after citing `prev`: its key is not yet
      seen and the answer mentions it. */
  predicate Admits(answerText: string, prev: seq<Citation>, c: ContextChunk) {
    CitationKey(DocNameOf(c), PageOf(c)) !in Keys(prev) && Mentioned(answerText, c)
  }

  /** `extract_citations`, one chunk at a time. */
  function ExtractCitations(answerText: string, chunks: seq<ContextChunk>): seq<Citation>
    decreases |chunks|
  {
    if |chunks| == 0 then []
    else
      var prev := ExtractCitations(answerText, chunks[..|chunks| - 1]);
      var c := chunks[|chunks| - 1];
      if Admits(answerText, prev, c) then prev + [CitationOf(c)] else prev
  }

  lemma ExtractCitationsStep(answerText: string, chunks: seq<ContextChunk>, i: nat)
    requires i < |chunks|
    ensures var prev := ExtractCitations(answerText, chunks[..i]);
      var c := chunks[i];
      ExtractCitations(answerText, chunks[..i + 1]) ==
        if Admits(answerText, prev, c) then prev + [CitationOf(c)] else prev
  {
    assert chunks[..i + 1][..i] == chunks[..i];
  }

  lemma KeysAppend(cs: seq<Citation>, c: Citation)
    ensures Keys(cs + [c]) == Keys(cs) + {CitationKey(c.docName, c.page)}
  {
    var all := cs + [c];
    assert c in all;
    forall d | d in all ensures d in cs || d == c {
    }
    forall d | d in cs ensures d in all {
    }
  }

  /** The loop of `extract_citations` with its `seen` set. */
  method ExtractCitationsLoop(answerText: string, chunks: seq<ContextChunk>) returns (citations: seq<Citation>)
    ensures citations == ExtractCitations(answerText, chunks)
    ensures |citations| <= |chunks|
  {
    citations := [];
    var seen: set<string> := {};
    var i := 0;
    while i < |chunks|
      invariant 0 <= i <= |chunks|
      invariant citations == ExtractCitations(answerText, chunks[..i])
      invariant seen == Keys(citations)
      invariant |citations| <= i
    {
      var c := chunks[i];
      var key := CitationKey(DocNameOf(c), PageOf(c));
      ExtractCitationsStep(answerText, chunks, i);
      if key !in seen {
        if Mentioned(answerText, c) {
          KeysAppend(citations, CitationOf(c));
          citations := citations + [CitationOf(c)];
          seen := seen + {key};
        }
      }
      i := i + 1;
    }
    assert chunks[..i] == chunks;
  }

  /** `ExtractCitations` picks its entries out of the chunks in order: `idx` gives, for each
      citation, the chunk it was made from, and those chunks are mentioned. */
  ghost predicate CitedFrom(answerText: string, chunks: seq<ContextChunk>, r: seq<Citation>, idx: seq<nat>) {
    && |idx| == |r|
    && (forall i :: 0 <= i < |idx| ==> idx[i] < |chunks|)
    && (forall i, j :: 0 <= i < j < |idx| ==> idx[i] < idx[j])
    && (forall i :: 0 <= i < |idx| ==> r[i] == CitationOf(chunks[idx[i]]) && Mentioned(answerText, chunks[idx[i]]))
  }

  lemma CitedFromPrefix(answerText: string, chunks: seq<ContextChunk>, n: nat, r: seq<Citation>, idx: seq<nat>)
    requires n <= |chunks| && CitedFrom(answerText, chunks[..n], r, idx)
    ensures CitedFrom(answerText, chunks, r, idx)
    ensures forall i :: 0 <= i < |idx| ==> idx[i] < n
  {
    forall i | 0 <= i < |idx|
      ensures r[i] == CitationOf(chunks[idx[i]]) && Mentioned(answerText, chunks[idx[i]])
    {
      assert chunks[..n][idx[i]] == chunks[idx[i]];
    }
  }

  lemma CitedFromAppend(answerText: string, chunks: seq<ContextChunk>, r: seq<Citation>, idx: seq<nat>, n: nat)
    requires CitedFrom(answerText, chunks, r, idx)
    requires n < |chunks| && Mentioned(answerText, chunks[n])
    requires forall i :: 0 <= i < |idx| ==> idx[i] < n
    ensures CitedFrom(answerText, chunks, r + [CitationOf(chunks[n])], idx + [n])
  {
    var r' := r + [CitationOf(chunks[n])];
    var idx' := idx + [n];
    forall i | 0 <= i < |idx'|
      ensures r'[i] == CitationOf(chunks[idx'[i]]) && Mentioned(answerText, chunks[idx'[i]])
    {
      if i < |idx| {
        assert r'[i] == r[i] && idx'[i] == idx[i];
      }
    }
  }

  /** Chunk `j` is mentioned and has the document name and page of chunk `k`. */
  predicate MentionedAt(answerText: string, chunks: seq<ContextChunk>, j: nat, k: nat)
    requires j < |chunks| && k < |chunks|
  {
    && Mentioned(answerText, chunks[j])
    && DocNameOf(chunks[j]) == DocNameOf(chunks[k])
    && PageOf(chunks[j]) == PageOf(chunks[k])
  }

  /** Each citation comes from the first mentioned chunk with its document name and page:
      `seen` takes the key on that chunk, so a later chunk of the same page is skipped. */
  ghost predicate FirstMentions(answerText: string, chunks: seq<ContextChunk>, idx: seq<nat>)
    requires forall i :: 0 <= i < |idx| ==> idx[i] < |chunks|
  {
    forall i, j :: 0 <= i < |idx| && 0 <= j < idx[i] ==> !MentionedAt(answerText, chunks, j, idx[i])
  }

  lemma FirstMentionsPrefix(answerText: string, chunks: seq<ContextChunk>, n: nat, idx: seq<nat>)
    requires n <= |chunks| && forall i :: 0 <= i < |idx| ==> idx[i] < n
    requires FirstMentions(answerText, chunks[..n], idx)
    ensures FirstMentions(answerText, chunks, idx)
  {
    forall i, j | 0 <= i < |idx| && 0 <= j < idx[i]
      ensures !MentionedAt(answerText, chunks, j, idx[i])
    {
      assert chunks[..n][j] == chunks[j] && chunks[..n][idx[i]] == chunks[idx[i]];
      assert !MentionedAt(answerText, chunks[..n], j, idx[i]);
    }
  }

  /** A chunk admitted after the first `n` has no mentioned chunk of its page before it. */
  lemma AdmittedIsFirst(answerText: string, chunks: seq<ContextChunk>, n: nat, j: nat)
    requires n < |chunks| && j < n
    requires Admits(answerText, ExtractCitations(answerText, chunks[..n]), chunks[n])
    ensures !MentionedAt(answerText, chunks, j, n)
  {
    if MentionedAt(answerText, chunks, j, n) {
      var prev := ExtractCitations(answerText, chunks[..n]);
      assert chunks[..n][j] == chunks[j];
      ExtractCitationsComplete(answerText, chunks[..n], j);
      assert false;
    }
  }

  lemma FirstMentionsAppend(answerText: string, chunks: seq<ContextChunk>, idx: seq<nat>, n: nat)
    requires n < |chunks| && forall i :: 0 <= i < |idx| ==> idx[i] < n
    requires FirstMentions(answerText, chunks, idx)
    requires Admits(answerText, ExtractCitations(answerText, chunks[..n]), chunks[n])
    ensures FirstMentions(answerText, chunks, idx + [n])
  {
    var idx' := idx + [n];
    forall i, j | 0 <= i < |idx'| && 0 <= j < idx'[i]
      ensures !MentionedAt(answerText, chunks, j, idx'[i])
    {
      if i == |idx| {
        AdmittedIsFirst(answerText, chunks, n, j);
      } else {
        assert idx'[i] == idx[i];
      }
    }
  }

  lemma {:induction false} ExtractCitationsSources(answerText: string, chunks: seq<ContextChunk>) returns (idx: seq<nat>)
    ensures CitedFrom(answerText, chunks, ExtractCitations(answerText, chunks), idx)
    ensures FirstMentions(answerText, chunks, idx)
    decreases |chunks|
  {
    if |chunks| == 0 {
      idx := [];
    } else {
      var n := |chunks| - 1;
      var prevIdx := ExtractCitationsSources(answerText, chunks[..n]);
      var prev := ExtractCitations(answerText, chunks[..n]);
      CitedFromPrefix(answerText, chunks, n, prev, prevIdx);
      FirstMentionsPrefix(answerText, chunks, n, prevIdx);
      if Admits(answerText, prev, chunks[n]) {
        CitedFromAppend(answerText, chunks, prev, prevIdx, n);
        idx := prevIdx + [n];
        FirstMentionsAppend(answerText, chunks, prevIdx, n);
      } else {
        idx := prevIdx;
      }
    }
  }

  /** No two citations share a document name and page. */
  predicate DistinctPlaces(r: seq<Citation>) {
    forall i, j :: 0 <= i < j < |r| ==> r[i].docName != r[j].docName || r[i].page != r[j].page
  }

  lemma DistinctPlacesAppend(prev: seq<Citation>, c: Citation)
    requires DistinctPlaces(prev) && CitationKey(c.docName, c.page) !in Keys(prev)
    ensures DistinctPlaces(prev + [c])
  {
    var r := prev + [c];
    forall i, j | 0 <= i < j < |r|
      ensures r[i].docName != r[j].docName || r[i].page != r[j].page
    {
      assert r[i] == prev[i] && prev[i] in prev;
      if j < |prev| {
        assert r[j] == prev[j];
      } else {
        assert CitationKey(prev[i].docName, prev[i].page) in Keys(prev);
      }
    }
  }

  /** The last step of `ExtractCitations`, with the decision taken apart. */
  lemma ExtractCitationsLastStep(answerText: string, chunks: seq<ContextChunk>) returns (prev: seq<Citation>, added: bool)
    requires |chunks| > 0
    ensures prev == ExtractCitations(answerText, chunks[..|chunks| - 1])
    ensures added ==> CitationKey(DocNameOf(chunks[|chunks| - 1]), PageOf(chunks[|chunks| - 1])) !in Keys(prev)
    ensures added ==> Mentioned(answerText, chunks[|chunks| - 1])
    ensures ExtractCitations(answerText, chunks) == if added then prev + [CitationOf(chunks[|chunks| - 1])] else prev
  {
    prev := ExtractCitations(answerText, chunks[..|chunks| - 1]);
    added := Admits(answerText, prev, chunks[|chunks| - 1]);
  }

  lemma {:induction false} ExtractCitationsDistinct(answerText: string, chunks: seq<ContextChunk>)
    ensures DistinctPlaces(ExtractCitations(answerText, chunks))
    decreases |chunks|
  {
    if |chunks| > 0 {
      var prev, added := ExtractCitationsLastStep(answerText, chunks);
      ExtractCitationsDistinct(answerText, chunks[..|chunks| - 1]);
      if added {
        DistinctPlacesAppend(prev, CitationOf(chunks[|chunks| - 1]));
      }
    }
  }

  /** Some citation in `r` carries this document name and page. */
  predicate Cites(r: seq<Citation>, docName: string, page: int) {
    exists c :: c in r && c.docName == docName && c.page == page
  }

  /** The last chunk, when mentioned, is represented after it is processed. */
  lemma ExtractCitationsLast(answerText: string, chunks: seq<ContextChunk>)
    requires |chunks| > 0 && Mentioned(answerText, chunks[|chunks| - 1])
    ensures Cites(ExtractCitations(answerText, chunks), DocNameOf(chunks[|chunks| - 1]), PageOf(chunks[|chunks| - 1]))
  {
    var c := chunks[|chunks| - 1];
    var prev := ExtractCitations(answerText, chunks[..|chunks| - 1]);
    var r := ExtractCitations(answerText, chunks);
    if CitationKey(DocNameOf(c), PageOf(c)) in Keys(prev) {
      var d :| d in prev && CitationKey(d.docName, d.page) == CitationKey(DocNameOf(c), PageOf(c));
      CitationKeyInjective(d.docName, d.page, DocNameOf(c), PageOf(c));
      assert r == prev;
    } else {
      assert r == prev + [CitationOf(c)];
      assert CitationOf(c) in r;
    }
  }

  /** Every mentioned chunk is represented: some citation carries its document name and page. */
  lemma {:induction false} ExtractCitationsComplete(answerText: string, chunks: seq<ContextChunk>, j: nat)
    requires j < |chunks| && Mentioned(answerText, chunks[j])
    ensures Cites(ExtractCitations(answerText, chunks), DocNameOf(chunks[j]), PageOf(chunks[j]))
    decreases |chunks|
  {
    var n := |chunks| - 1;
    if j < n {
      var prev := ExtractCitations(answerText, chunks[..n]);
      assert chunks[..n][j] == chunks[j];
      ExtractCitationsComplete(answerText, chunks[..n], j);
      var d :| d in prev && d.docName == DocNameOf(chunks[j]) && d.page == PageOf(chunks[j]);
      assert prev <= ExtractCitations(answerText, chunks);
      assert d in ExtractCitations(answerText, chunks);
    } else {
      ExtractCitationsLast(answerText, chunks);
    }
  }

  // ---------------------------------------------------------------------------
  // Generating one answer

  /** `search_chunks(question_text, n_results=8)` */
  const SearchResults: nat := 8
  /** The `answer_temp_a`, `answer_temp_b` and `merge_temp` settings. */
  const TempA: real := 0.7
  const TempB: real := 0.9
  const MergeTemp: real := 0.3

  const NoDocumentsText: string := "No documents have been indexed yet. Please upload and index documents first."

  /** The two prompts, kept abstract: what the model is asked about. */
  datatype Prompt =
    | AnswerPrompt(question: string, context: seq<ContextChunk>)
    | MergePrompt(question: string, answerA: string, answerB: string)

  /** The collaborators of answer generation. `search` may raise, `llm` never does (its
      failures come back as text), and `answerId` is the uuid drawn for a question's answer. */
  datatype AnswerEnv = AnswerEnv(
    search: (string, nat) -> Result<seq<ContextChunk>, string>,
    llm: (Prompt, real) -> string,
    parse: FloatParser,
    answerId: string -> string)

  datatype Generation = Generation(db: Db, answer: Answer)

  /** The row written when the merged response is `final` for the retrieved `chunks`. */
  function AnswerRow(id: string, questionId: string, a: string, b: string, final: string,
                     chunks: seq<ContextChunk>, parse: FloatParser): Answer
  {
    var parsed := ParseAnswerResponse(final, parse);
    Answer(id, questionId, parsed.text, a, b, "", ExtractCitations(parsed.text, chunks),
      parsed.confidence, parsed.answerable, Generated)
  }

  /** `generate_answer`: an existing answer is returned untouched; otherwise the question is
      searched, and a new GENERATED row is added — the fixed no-documents answer when nothing
      is retrieved, else the parsed merge of two variants. */
  function GenerateAnswer(db: Db, q: Question, env: AnswerEnv): (r: Result<Generation, string>)
    ensures AnswerOf(db, q.id).Some? ==> r == Ok(Generation(db, AnswerOf(db, q.id).value))
    ensures AnswerOf(db, q.id).None? ==>
      (r.Err? <==> env.search(q.questionText, SearchResults).Err?)
    ensures AnswerOf(db, q.id).None? && r.Err? ==> r.error == env.search(q.questionText, SearchResults).error
    ensures AnswerOf(db, q.id).None? && r.Ok? ==>
      && r.value.db == db.(answers := db.answers + [r.value.answer])
      && r.value.answer.id == env.answerId(q.id)
      && r.value.answer.questionId == q.id
      && r.value.answer.status == Generated
      && r.value.answer.manualAnswer == ""
      && 0.0 <= r.value.answer.confidence <= 1.0
    ensures AnswerOf(db, q.id).None? && r.Ok? && |env.search(q.questionText, SearchResults).value| == 0 ==>
      && r.value.answer.aiAnswer == NoDocumentsText
      && r.value.answer.confidence == 0.0
      && r.value.answer.answerable == No
      && r.value.answer.citations == []
    ensures AnswerOf(db, q.id).None? && r.Ok? && |env.search(q.questionText, SearchResults).value| > 0 ==>
      var chunks := env.search(q.questionText, SearchResults).value;
      var a := env.llm(AnswerPrompt(q.questionText, chunks), TempA);
      var b := env.llm(AnswerPrompt(q.questionText, chunks), TempB);
      var parsed := ParseAnswerResponse(env.llm(MergePrompt(q.questionText, a, b), MergeTemp), env.parse);
      && r.value.answer.variantA == a && r.value.answer.variantB == b
      && r.value.answer.aiAnswer == parsed.text
      && r.value.answer.confidence == parsed.confidence
      && r.value.answer.answerable == parsed.answerable
      && r.value.answer.citations == ExtractCitations(parsed.text, chunks)
  {
    match AnswerOf(db, q.id)
    case Some(existing) => Ok(Generation(db, existing))
    case None =>
      match env.search(q.questionText, SearchResults)
      case Err(e) => Err(e)
      case Ok(chunks) =>
        var id := env.answerId(q.id);
        var answer :=
          if |chunks| == 0 then
            NewAnswer(id, q.id).(aiAnswer := NoDocumentsText, answerable := No, status := Generated)
          else
            var prompt := AnswerPrompt(q.questionText, chunks);
            var a := env.llm(prompt, TempA);
            var b := env.llm(prompt, TempB);
            var final := env.llm(MergePrompt(q.questionText, a, b), MergeTemp);
            AnswerRow(id, q.id, a, b, final, chunks, env.parse);
        Ok(Generation(db.(answers := db.answers + [answer]), answer))
  }

  /** Appending a row keeps the answer found for any question that already had one. */
  lemma AnswerOfAppend(db: Db, a: Answer, questionId: string)
    requires AnswerOf(db, questionId).Some?
    ensures AnswerOf(db.(answers := db.answers + [a]), questionId) == AnswerOf(db, questionId)
  {
    var m := (x: Answer) => x.questionId == questionId;
    var k := FindFirst(db.answers, m).value;
    var all := db.answers + [a];
    assert all[k] == db.answers[k];
    assert forall i :: 0 <= i < k ==> all[i] == db.answers[i];
    var f := FindFirst(all, m);
    assert f.Some?;
    assert f.value == k;
  }

  /** After generating, the question has an answer, and it is the one returned. */
  lemma GenerateAnswerAnswers(db: Db, q: Question, env: AnswerEnv)
    requires GenerateAnswer(db, q, env).Ok?
    ensures var g := GenerateAnswer(db, q, env).value;
      AnswerOf(g.db, q.id) == Some(g.answer)
  {
    var g := GenerateAnswer(db, q, env).value;
    if AnswerOf(db, q.id).None? {
      var m := (x: Answer) => x.questionId == q.id;
      var all := db.answers + [g.answer];
      assert all[|db.answers|] == g.answer;
      assert forall i :: 0 <= i < |db.answers| ==> all[i] == db.answers[i];
      assert FindFirst(all, m) == Some(|db.answers|);
    }
  }

  /** The uuid drawn for a question's answer collides with no stored answer id. */
  ghost predicate FreshId(db: Db, answerId: string -> string, questionId: string) {
    forall a :: a in db.answers ==> a.id != answerId(questionId)
  }

  /** Generating for a stored question keeps the store valid: the new row has a fresh id,
      names a stored question, and that question had no answer yet. */
  lemma GenerateAnswerValid(db: Db, q: Question, env: AnswerEnv)
    requires Valid(db) && q in db.questions
    requires AnswerOf(db, q.id).None? ==> FreshId(db, env.answerId, q.id)
    requires GenerateAnswer(db, q, env).Ok?
    ensures Valid(GenerateAnswer(db, q, env).value.db)
  {
    var g := GenerateAnswer(db, q, env).value;
    if AnswerOf(db, q.id).None? {
      var all := db.answers + [g.answer];
      forall i, j | 0 <= i < j < |all|
        ensures AnswerKey(all[i]) != AnswerKey(all[j]) && AnsweredQuestion(all[i]) != AnsweredQuestion(all[j])
      {
        if j == |db.answers| {
          assert all[i] == db.answers[i] && db.answers[i] in db.answers;
          var m := (x: Answer) => x.questionId == q.id;
          assert !m(db.answers[i]);
        } else {
          assert all[i] == db.answers[i] && all[j] == db.answers[j];
        }
      }
      assert QuestionIds(g.db) == QuestionIds(db);
    }
  }

  // ---------------------------------------------------------------------------
  // Generating a project's answers

  datatype QuestionError = QuestionError(questionId: string, error: string)

  datatype BatchResult = BatchResult(projectId: string, total: nat, generated: nat, errors: seq<QuestionError>)

  datatype BatchRun = BatchRun(db: Db, generated: nat, errors: seq<QuestionError>)

  /** The loop of `generate_answers_for_project`: each question in turn, a failure recorded
      and the loop carried on. */
  function GenerateEach(db: Db, qs: seq<Question>, env: AnswerEnv): (r: BatchRun)
    ensures r.generated + |r.errors| == |qs|
    ensures r.db.projects == db.projects && r.db.questions == db.questions && r.db.documents == db.documents
    ensures db.answers <= r.db.answers
    decreases |qs|
  {
    if |qs| == 0 then BatchRun(db, 0, [])
    else
      match GenerateAnswer(db, qs[0], env)
      case Ok(g) =>
        var rest := GenerateEach(g.db, qs[1..], env);
        BatchRun(rest.db, rest.generated + 1, rest.errors)
      case Err(e) =>
        var rest := GenerateEach(db, qs[1..], env);
        BatchRun(rest.db, rest.generated, [QuestionError(qs[0].id, e)] + rest.errors)
  }

  /** `xs` is `ys` with some elements left out, order kept. */
  predicate Subsequence<T(==)>(xs: seq<T>, ys: seq<T>)
    decreases |ys|
  {
    || |xs| == 0
    || (&& |ys| > 0
        && ((xs[0] == ys[0] && Subsequence(xs[1..], ys[1..])) || Subsequence(xs, ys[1..])))
  }

  function ErrorIds(es: seq<QuestionError>): (ids: seq<string>)
    ensures |ids| == |es| && forall i :: 0 <= i < |es| ==> ids[i] == es[i].questionId
  {
    seq(|es|, i requires 0 <= i < |es| => es[i].questionId)
  }

  function QuestionIdList(qs: seq<Question>): (ids: seq<string>)
    ensures |ids| == |qs| && forall i :: 0 <= i < |qs| ==> ids[i] == qs[i].id
  {
    seq(|qs|, i requires 0 <= i < |qs| => qs[i].id)
  }

  /** Errors are reported in question order, one per failed question. */
  lemma {:induction false} GenerateEachErrorsInOrder(db: Db, qs: seq<Question>, env: AnswerEnv)
    ensures Subsequence(ErrorIds(GenerateEach(db, qs, env).errors), QuestionIdList(qs))
    decreases |qs|
  {
    if |qs| > 0 {
      var ids := QuestionIdList(qs);
      assert ids[1..] == QuestionIdList(qs[1..]);
      match GenerateAnswer(db, qs[0], env)
      case Ok(g) =>
        GenerateEachErrorsInOrder(g.db, qs[1..], env);
      case Err(e) =>
        GenerateEachErrorsInOrder(db, qs[1..], env);
        var es := GenerateEach(db, qs, env).errors;
        assert ErrorIds(es)[1..] == ErrorIds(es[1..]);
    }
  }

  /** The question ended the batch with an answer or with an error entry. */
  predicate Covered(run: BatchRun, questionId: string) {
    AnswerOf(run.db, questionId).Some? || questionId in ErrorIds(run.errors)
  }

  /** No question is lost: after the batch every question has an answer or an error entry. */
  lemma {:induction false} GenerateEachCovers(db: Db, qs: seq<Question>, env: AnswerEnv, q: Question)
    requires q in qs
    ensures Covered(GenerateEach(db, qs, env), q.id)
    decreases |qs|, 1
  {
    if q == qs[0] {
      GenerateEachCoversFirst(db, qs, env);
    } else {
      assert q in qs[1..];
      GenerateEachCoversRest(db, qs, env, q);
    }
  }

  lemma GenerateEachCoversFirst(db: Db, qs: seq<Question>, env: AnswerEnv)
    requires |qs| > 0
    ensures Covered(GenerateEach(db, qs, env), qs[0].id)
  {
    var r := GenerateEach(db, qs, env);
    match GenerateAnswer(db, qs[0], env)
    case Ok(g) =>
      GenerateAnswerAnswers(db, qs[0], env);
      GenerateEachKeepsAnswers(g.db, qs[1..], env, qs[0].id);
    case Err(e) =>
      assert ErrorIds(r.errors)[0] == qs[0].id;
  }

  lemma {:induction false} GenerateEachCoversRest(db: Db, qs: seq<Question>, env: AnswerEnv, q: Question)
    requires |qs| > 0 && q in qs[1..]
    ensures Covered(GenerateEach(db, qs, env), q.id)
    decreases |qs|, 0
  {
    match GenerateAnswer(db, qs[0], env)
    case Ok(g) =>
      GenerateEachCovers(g.db, qs[1..], env, q);
    case Err(e) =>
      GenerateEachCovers(db, qs[1..], env, q);
      var r := GenerateEach(db, qs, env);
      var rest := GenerateEach(db, qs[1..], env);
      assert ErrorIds(rest.errors) == ErrorIds(r.errors)[1..];
  }

  /** A question that has an answer keeps it for the rest of the batch. */
  lemma {:induction false} GenerateEachKeepsAnswers(db: Db, qs: seq<Question>, env: AnswerEnv, questionId: string)
    requires AnswerOf(db, questionId).Some?
    ensures AnswerOf(GenerateEach(db, qs, env).db, questionId) == AnswerOf(db, questionId)
    decreases |qs|
  {
    if |qs| > 0 {
      match GenerateAnswer(db, qs[0], env)
      case Ok(g) =>
        if AnswerOf(db, qs[0].id).None? {
          AnswerOfAppend(db, g.answer, questionId);
        }
        GenerateEachKeepsAnswers(g.db, qs[1..], env, questionId);
      case Err(e) =>
        GenerateEachKeepsAnswers(db, qs[1..], env, questionId);
    }
  }

  /** Appending an answer to another question leaves the question's answer as it was. */
  lemma AnswerOfAppendOther(db: Db, a: Answer, questionId: string)
    requires a.questionId != questionId
    ensures AnswerOf(db.(answers := db.answers + [a]), questionId) == AnswerOf(db, questionId)
  {
    if AnswerOf(db, questionId).Some? {
      AnswerOfAppend(db, a, questionId);
    } else {
      var db' := db.(answers := db.answers + [a]);
      NoAnswerOf(db, questionId);
      assert forall x :: x in db'.answers ==> x in db.answers || x == a;
      NoAnswerOf(db', questionId);
    }
  }

  /** The question fails in the batch: it has no answer yet and its search fails. */
  predicate Fails(db: Db, q: Question, env: AnswerEnv) {
    AnswerOf(db, q.id).None? && env.search(q.questionText, SearchResults).Err?
  }

  /** The error entries a batch over `qs` should report, read off the store before the
      batch: one per failing question, in question order, with its search error. */
  function FailedQuestions(db: Db, qs: seq<Question>, env: AnswerEnv): seq<QuestionError>
    decreases |qs|
  {
    if |qs| == 0 then []
    else
      var q := qs[0];
      var first := if Fails(db, q, env) then [QuestionError(q.id, env.search(q.questionText, SearchResults).error)] else [];
      first + FailedQuestions(db, qs[1..], env)
  }

  /** Only answers to the questions' own ids decide which of them fail. */
  lemma {:induction false} FailedQuestionsSameAnswers(db: Db, db': Db, qs: seq<Question>, env: AnswerEnv)
    requires forall q :: q in qs ==> AnswerOf(db', q.id) == AnswerOf(db, q.id)
    ensures FailedQuestions(db', qs, env) == FailedQuestions(db, qs, env)
    decreases |qs|
  {
    if |qs| > 0 {
      assert qs[0] in qs;
      assert forall q :: q in qs[1..] ==> q in qs;
      FailedQuestionsSameAnswers(db, db', qs[1..], env);
    }
  }

  /** Generating the first question's answer leaves the others' answers alone, when
      question ids are distinct. */
  lemma GenerateOthersUnchanged(db: Db, qs: seq<Question>, env: AnswerEnv, g: Generation)
    requires |qs| > 0 && Distinct(qs, QuestionKey) && GenerateAnswer(db, qs[0], env) == Ok(g)
    ensures forall q :: q in qs[1..] ==> AnswerOf(g.db, q.id) == AnswerOf(db, q.id)
  {
    forall q | q in qs[1..]
      ensures AnswerOf(g.db, q.id) == AnswerOf(db, q.id)
    {
      var j :| 0 <= j < |qs[1..]| && qs[1..][j] == q;
      assert QuestionKey(qs[0]) != QuestionKey(qs[j + 1]);
      if AnswerOf(db, qs[0].id).None? {
        AnswerOfAppendOther(db, g.answer, q.id);
      }
    }
  }

  /** A failure never aborts the batch and a success is never reported as one: over
      questions with distinct ids the error entries are exactly those of the questions
      that fail, in order and with their search errors, and every other question counts
      as generated. */
  lemma {:induction false} GenerateEachFailures(db: Db, qs: seq<Question>, env: AnswerEnv)
    requires Distinct(qs, QuestionKey)
    ensures GenerateEach(db, qs, env).errors == FailedQuestions(db, qs, env)
    ensures GenerateEach(db, qs, env).generated == |qs| - |FailedQuestions(db, qs, env)|
    decreases |qs|
  {
    if |qs| > 0 {
      assert Distinct(qs[1..], QuestionKey) by {
        forall i, j | 0 <= i < j < |qs[1..]|
          ensures QuestionKey(qs[1..][i]) != QuestionKey(qs[1..][j])
        {
          assert qs[1..][i] == qs[i + 1] && qs[1..][j] == qs[j + 1];
        }
      }
      match GenerateAnswer(db, qs[0], env)
      case Ok(g) =>
        GenerateEachFailures(g.db, qs[1..], env);
        GenerateOthersUnchanged(db, qs, env, g);
        FailedQuestionsSameAnswers(db, g.db, qs[1..], env);
      case Err(e) =>
        GenerateEachFailures(db, qs[1..], env);
    }
  }

  /** Which questions `FailedQuestions` names: a question of distinct-id `qs` has an
      entry exactly when it fails, and every entry for it carries its search error. */
  lemma {:induction false} FailedQuestionsNames(db: Db, qs: seq<Question>, env: AnswerEnv, q: Question)
    requires Distinct(qs, QuestionKey) && q in qs
    ensures q.id in ErrorIds(FailedQuestions(db, qs, env)) <==> Fails(db, q, env)
    ensures forall e :: e in FailedQuestions(db, qs, env) && e.questionId == q.id ==>
      e.error == env.search(q.questionText, SearchResults).error
    decreases |qs|
  {
    var fs := FailedQuestions(db, qs, env);
    var rest := FailedQuestions(db, qs[1..], env);
    assert Distinct(qs[1..], QuestionKey) by {
      forall i, j | 0 <= i < j < |qs[1..]|
        ensures QuestionKey(qs[1..][i]) != QuestionKey(qs[1..][j])
      {
        assert qs[1..][i] == qs[i + 1] && qs[1..][j] == qs[j + 1];
      }
    }
    var first := if Fails(db, qs[0], env) then [QuestionError(qs[0].id, env.search(qs[0].questionText, SearchResults).error)] else [];
    assert fs == first + rest;
    assert forall e :: e in fs <==> e in first || e in rest;
    InErrorIds(fs, q.id);
    InErrorIds(rest, q.id);
    if q == qs[0] {
      // No later question shares its id.
      forall e | e in rest
        ensures e.questionId != q.id
      {
        var j := FailedQuestionsFrom(db, qs[1..], env, e);
        assert QuestionKey(qs[0]) != QuestionKey(qs[j + 1]);
      }
    } else {
      var j :| 0 <= j < |qs| && qs[j] == q;
      assert j > 0 && qs[1..][j - 1] == q;
      assert QuestionKey(qs[0]) != QuestionKey(qs[j]);
      FailedQuestionsNames(db, qs[1..], env, q);
    }
  }

  /** An id is among the error ids exactly when some entry names it. */
  lemma InErrorIds(es: seq<QuestionError>, questionId: string)
    ensures questionId in ErrorIds(es) <==> exists e :: e in es && e.questionId == questionId
  {
    if questionId in ErrorIds(es) {
      var i :| 0 <= i < |es| && ErrorIds(es)[i] == questionId;
      assert es[i] in es;
    }
    if e :| e in es && e.questionId == questionId {
      var i :| 0 <= i < |es| && es[i] == e;
      assert ErrorIds(es)[i] == questionId;
    }
  }

  /** Every entry of `FailedQuestions` is for one of the questions. */
  lemma {:induction false} FailedQuestionsFrom(db: Db, qs: seq<Question>, env: AnswerEnv, e: QuestionError) returns (j: nat)
    requires e in FailedQuestions(db, qs, env)
    ensures j < |qs| && qs[j].id == e.questionId
    decreases |qs|
  {
    var q := qs[0];
    if Fails(db, q, env) && e == QuestionError(q.id, env.search(q.questionText, SearchResults).error) {
      j := 0;
    } else {
      var k := FailedQuestionsFrom(db, qs[1..], env, e);
      j := k + 1;
    }
  }

  /** No answer row names the question. */
  lemma NoAnswerOf(db: Db, questionId: string)
    ensures AnswerOf(db, questionId).None? <==> forall a :: a in db.answers ==> a.questionId != questionId
  {
    var m := (x: Answer) => x.questionId == questionId;
    if AnswerOf(db, questionId).None? {
      forall a | a in db.answers ensures a.questionId != questionId {
        var k :| 0 <= k < |db.answers| && db.answers[k] == a;
        assert !m(db.answers[k]);
      }
    } else {
      var k := FindFirst(db.answers, m).value;
      assert db.answers[k] in db.answers;
    }
  }

  /** Every still unanswered question of the batch gets a uuid that is new to the store,
      and distinct questions get distinct uuids. */
  ghost predicate FreshForBatch(db: Db, answerId: string -> string, qs: seq<Question>) {
    && (forall q :: q in qs && AnswerOf(db, q.id).None? ==> FreshId(db, answerId, q.id))
    && (forall x, y :: x != y ==> answerId(x) != answerId(y))
  }

  lemma FreshForRest(db: Db, qs: seq<Question>, env: AnswerEnv, g: Generation)
    requires |qs| > 0 && FreshForBatch(db, env.answerId, qs)
    requires GenerateAnswer(db, qs[0], env) == Ok(g)
    ensures FreshForBatch(g.db, env.answerId, qs[1..])
  {
    if AnswerOf(db, qs[0].id).None? {
      forall q | q in qs[1..] && AnswerOf(g.db, q.id).None?
        ensures FreshId(g.db, env.answerId, q.id)
      {
        NoAnswerOf(g.db, q.id);
        assert g.answer in g.db.answers;
        NoAnswerOf(db, q.id);
        assert q in qs;
      }
    }
  }

  /** The whole batch keeps the store valid when every question is stored and the uuids
      are fresh. */
  lemma {:induction false} GenerateEachValid(db: Db, qs: seq<Question>, env: AnswerEnv)
    requires Valid(db) && (forall q :: q in qs ==> q in db.questions)
    requires FreshForBatch(db, env.answerId, qs)
    ensures Valid(GenerateEach(db, qs, env).db)
    decreases |qs|
  {
    if |qs| > 0 {
      match GenerateAnswer(db, qs[0], env)
      case Ok(g) =>
        GenerateAnswerValid(db, qs[0], env);
        FreshForRest(db, qs, env, g);
        GenerateEachValid(g.db, qs[1..], env);
      case Err(e) =>
        GenerateEachValid(db, qs[1..], env);
    }
  }

  /** `generate_answers_for_project`: the counts of one batch over the project's questions. */
  function GenerateAnswersForProject(db: Db, project: Project, env: AnswerEnv): (r: (BatchResult, Db))
    ensures r.0.projectId == project.id
    ensures r.0.total == |QuestionsOf(db, project.id)|
    ensures r.0.generated + |r.0.errors| == r.0.total
    ensures r.1.projects == db.projects && r.1.questions == db.questions && r.1.documents == db.documents
    ensures db.answers <= r.1.answers
  {
    var qs := QuestionsOf(db, project.id);
    var run := GenerateEach(db, qs, env);
    (BatchResult(project.id, |qs|, run.generated, run.errors), run.db)
  }

  /** Over the project's questions the batch loses none, reports errors in question order,
      and keeps the store valid. */
  lemma GenerateAnswersForProjectSound(db: Db, project: Project, env: AnswerEnv)
    requires Valid(db) && FreshForBatch(db, env.answerId, QuestionsOf(db, project.id))
    ensures var (result, db') := GenerateAnswersForProject(db, project, env);
      && Valid(db')
      && Subsequence(ErrorIds(result.errors), QuestionIdList(QuestionsOf(db, project.id)))
      && (forall q :: q in QuestionsOf(db, project.id) ==>
            AnswerOf(db', q.id).Some? || q.id in ErrorIds(result.errors))
  {
    var qs := QuestionsOf(db, project.id);
    var run := GenerateEach(db, qs, env);
    GenerateEachValid(db, qs, env);
    GenerateEachErrorsInOrder(db, qs, env);
    forall q | q in qs
      ensures AnswerOf(run.db, q.id).Some? || q.id in ErrorIds(run.errors)
    {
      GenerateEachCovers(db, qs, env, q);
    }
  }

  /** Over a project's questions (distinct, since question ids are the primary key) the
      batch reports an error exactly for each question that fails, with its search
      error, and counts every other question as generated. */
  lemma GenerateAnswersForProjectFailures(db: Db, project: Project, env: AnswerEnv)
    requires Distinct(db.questions, QuestionKey)
    ensures var result := GenerateAnswersForProject(db, project, env).0;
      var qs := QuestionsOf(db, project.id);
      && result.errors == FailedQuestions(db, qs, env)
      && result.generated == |qs| - |result.errors|
      && (forall q :: q in qs ==> (q.id in ErrorIds(result.errors) <==> Fails(db, q, env)))
      && (forall q, e :: q in qs && e in result.errors && e.questionId == q.id ==>
            e.error == env.search(q.questionText, SearchResults).error)
  {
    var qs := QuestionsOf(db, project.id);
    FilterDistinct(db.questions, (q: Question) => q.projectId == project.id, QuestionKey);
    GenerateEachFailures(db, qs, env);
    forall q | q in qs
      ensures q.id in ErrorIds(FailedQuestions(db, qs, env)) <==> Fails(db, q, env)
      ensures forall e :: e in FailedQuestions(db, qs, env) && e.questionId == q.id ==>
        e.error == env.search(q.questionText, SearchResults).error
    {
      FailedQuestionsNames(db, qs, env, q);
    }
  }
}
