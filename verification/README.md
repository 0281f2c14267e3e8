# Due-diligence questionnaire backend: a Dafny model of its core

The backend answers due-diligence questionnaires from uploaded PDFs. It chunks
each document page by page and stores the chunks in a vector index. For every
question of a project it then:

- retrieves the closest chunks;
- asks a language model for two answer variants and merges them with a third call;
- parses the confidence score and answerability tag out of the merged text;
- attaches citations to the sources the answer mentions;
- stores one answer row per question, which an analyst can then confirm, reject
  or override.

This project models the deterministic part of that pipeline in Dafny and proves
what it promises. Each Dafny module mirrors one source module:

| Dafny module (file) | models |
|---|---|
| `Wrappers` (`wrappers.dfy`) | `Option` and `Result` |
| `Text` (`text.dfy`) | the Python string operations the core relies on: `split()`, `strip()`, `" ".join`, `lower()`, `in`, `rsplit`/`split(sep)[-1]` and `str(int)` |
| `Database` (`database.dfy`) | the three status enumerations, the four row types with their column defaults, and the store as four tables; the store invariants (unique ids, one answer per question, owned rows) and the cascading project delete |
| `Ingestion` (`ingestion.dfy`) | the word-window chunker of `extract_pdf_chunks` over already extracted page texts, and the document row `ingest_document` commits |
| `AnswerService` (`answer.dfy`) | `parse_answer_response`, `extract_citations`, `generate_answer` and `generate_answers_for_project` |
| `AnswersApi` (`answers_api.dfy`) | the answer routes: read, generate one, review update |
| `ProjectsApi` (`projects_api.dfy`) | the project routes: list, create from the sample catalogue, read, delete, generate all |
| `Http` (`http.dfy`) | the error responses the routes raise |

The language model, the vector search, float parsing, uuid creation, the clock
and the sample-question file are inputs of the model. The language model is a
function from (prompt, temperature) to text that never fails, because
`call_llm` turns every failure into text. The search is a function that returns
chunks or an error, because nothing around `search_chunks` catches. A table is
the sequence of its rows in insertion order. So `.first()` finds the first
matching row, and a relationship load such as `project.questions` gives the
matching rows in table order.

Four facts about the code shape the model:

- The chunker works on words, not on character windows.
- It drops a page remainder of at most 50 characters.
- `create_project` creates no answer rows.
- `update_answer` has no status-transition guard.

One behaviour of the code is proved rather than corrected: a page that ends
exactly on a full chunk emits its carried-over words again as an extra chunk
(`Ingestion.CarryReEmitted`).

## Model

| member | source | states |
|---|---|---|
| `Text.Strip` | backend/app/services/answer.py:105 | `strip()` leaves a result that neither starts nor ends with whitespace and is no longer than the input |
| `Text.StripSlice` | backend/app/services/answer.py:105 | what `strip()` returns is a contiguous slice of the input starting after the leading whitespace: only the ends are removed |
| `Text.StripRemovesSpace` | backend/app/services/answer.py:105 | everything `strip()` removes, before and after the slice it returns, is whitespace |
| `Text.Split` | backend/app/services/ingestion.py:109 | every piece `split()` returns is a non-empty word without whitespace |
| `Text.SplitEmpty` | backend/app/services/ingestion.py:109 | `split()` returns no words exactly when the text is all whitespace |
| `Text.SplitJoin` | backend/app/services/ingestion.py:109-118 | joining words with single spaces and splitting again gives back the same words |
| `Text.SliceSplitJoin` | backend/app/services/ingestion.py:118 | any run of a page's words, joined with spaces, splits back to exactly that run |
| `Text.StripJoin` | backend/app/services/ingestion.py:138-139 | stripping the space-joined text of a list of words changes nothing |
| `Text.SplitStrip` | backend/app/services/answer.py:91-92 | splitting a stripped text gives the same tokens as splitting the text itself |
| `Text.Lower` | backend/app/services/answer.py:127 | lower-casing keeps the length (ASCII letters mapped one to one) |
| `Text.FirstIndexOf` | backend/app/services/answer.py:91 | the first occurrence of a substring, if any; none exactly when the text does not contain it |
| `Text.LastIndexOf` | backend/app/services/answer.py:104-105 | the last occurrence of a substring, with no later occurrence; none exactly when the text does not contain it |
| `Text.LastSplitPieceAfterLast` | backend/app/services/answer.py:91 | for a separator whose occurrences cannot overlap, the last piece of Python's left-to-right `split(sep)` is exactly the text after the last occurrence |
| `Text.NatToString` | backend/app/services/ingestion.py:120 | the decimal rendering of a natural number is a non-empty string of digits |
| `Text.DigitsRoundTrip` | backend/app/services/ingestion.py:120 | reading the decimal rendering back gives the number |
| `Text.IntToString` | backend/app/services/answer.py:124 | the rendering of any integer is non-empty and made of digits and a minus sign |
| `Text.IntToStringInjective` | backend/app/services/answer.py:124 | distinct integers render differently |
| `Database.ParseAnswerStatus` | backend/app/api/answers.py:41-43 | a status string is accepted exactly when it is one of the five `AnswerStatus` values, and it maps to the member stored under that string |
| `Database.AnswerStatusRoundTrip` | backend/app/models/database.py:22-27 | every answer status is recovered from its stored string, and that string is among the accepted ones |
| `Database.StatusValuesDistinct` | backend/app/models/database.py:16-34 | distinct members of each status enumeration are stored as distinct strings |
| `Database.FindFirst` | backend/app/api/answers.py:14 | `.first()` returns a matching row with no matching row before it, and nothing exactly when no row matches |
| `Database.FindFirstUpdate` | backend/app/api/answers.py:45-52 | overwriting the found row with one that still matches leaves it the row found |
| `Database.Filter` | backend/app/models/database.py:49 | a relationship load holds exactly the rows that match, and never more rows than the table |
| `Database.Count` | backend/app/api/projects.py:42 | a `sum(1 for … if …)` count is at most the number of items |
| `Database.CountAll` | backend/app/api/projects.py:42 | the count equals the number of items exactly when every item qualifies |
| `Database.CountNone` | backend/app/api/projects.py:42 | the count is zero exactly when no item qualifies |
| `Database.AnswerOfUnique` | backend/app/models/database.py:62 | with one answer per question, `question.answer` is the only answer row that names the question |
| `Database.ProjectRowUpdateValid` | backend/app/api/projects.py:133-134 | rewriting a project row's columns while keeping its id keeps the store valid |
| `Database.DeleteProjectCascade` | backend/app/models/database.py:49-62 | deleting a project removes the project row, every question of the project and every answer to one of those questions, and keeps every other row and all documents |
| `Database.DeleteProjectKeepsOthers` | backend/app/models/database.py:49-62 | with unique question ids, deleting one project leaves every other project's questions as they were, in table order, and each of them keeps its answer |
| `Database.DeleteProjectCascadeValid` | backend/app/models/database.py:49-62 | the cascading delete keeps the store valid and leaves no row that belonged to the project |
| `Ingestion.ChunkIdInjective` | backend/app/services/ingestion.py:120 | two chunk ids of one document are equal only for equal chunk indices |
| `Ingestion.OverlapWords` | backend/app/services/ingestion.py:132 | `int(chunk_overlap / 5)` as exact division truncated toward zero: for a non-negative overlap the largest count of words whose 5 characters each fit in it, and for a negative one the quotient rounded up. This is Python's value whenever the magnitude of the overlap is below 5·2^51 |
| `Ingestion.LastWords` | backend/app/services/ingestion.py:133 | `current_chunk[-n:]` keeps `n` words, or all of them when there are fewer |
| `Ingestion.LastWordsSuffix` | backend/app/services/ingestion.py:133 | the words kept are the list's own last words, in order |
| `Ingestion.CountedLengthJoin` | backend/app/services/ingestion.py:115-118 | the counted length `sum(len(w) + 1)` of a non-empty word list is one more than the length of its space-joined text |
| `Ingestion.ChunkDocumentProperties` | backend/app/services/ingestion.py:103-150 | over any parameters and pages, the chunk list has indices 0, 1, 2, … in emission order and ids `doc_id + "_chunk_" + index`. Its metadata is the caller's. Each chunk is a space-joined run of words of the page it names, and pages never decrease. Each chunk was emitted full (`len + 1 >= chunk_size`) or is longer than 50 characters. A chunk that follows another on the same page starts with the words the other carried over. No two ids are equal. The exact tiling of each page is `Ingestion.PageTiling` |
| `Ingestion.FullRunsCover` | backend/app/services/ingestion.py:113-134 | every word up to the end of the last full chunk lies in the run of some full chunk |
| `Ingestion.TilingCovers` | backend/app/services/ingestion.py:109-150 | the full runs and the remainder leave no word of the page out |
| `Ingestion.PageTiling` | backend/app/services/ingestion.py:104-150 | a page's chunks tile its words. The first full run starts at word 0 and each later one at the words the previous one carried over (its end minus the carried count). Each run ends at the first new word with which its counted length reaches the chunk size, and no earlier new word reached it. The page adds exactly those full chunks, indexed on from the chunks before, then the remainder from the last carried words to the end of the page. The remainder is below the chunk size when it has a fresh word, and it is kept exactly when it has words and its stripped text is longer than 50 characters |
| `Ingestion.DocumentTiling` | backend/app/services/ingestion.py:103-150 | the same tiling holds for the last page of any document: the document's chunks are those of the earlier pages, then that page's full chunks and kept remainder, numbered on from them |
| `Ingestion.BlankPageAddsNothing` | backend/app/services/ingestion.py:109-137 | a page with no words adds no chunk |
| `Ingestion.CarryReEmitted` | backend/app/services/ingestion.py:131-150 | a one-word page whose word fills a chunk and is longer than 50 characters yields that word twice, as chunks 0 and 1, when the overlap carries at least one word |
| `Ingestion.RunLength` | backend/app/services/ingestion.py:134 | the loop summing `len(w) + 1` over the carried words computes their counted length |
| `Ingestion.AddWordInPlace` | backend/app/services/ingestion.py:113-134 | one iteration of the word loop, written with the running length, does what the functional step does and keeps the running length equal to the counted length |
| `Ingestion.ChunkPageInPlace` | backend/app/services/ingestion.py:104-150 | the word loop and remainder check of one page, as the source writes them, produce the chunks of the functional definition |
| `Ingestion.ExtractPdfChunks` | backend/app/services/ingestion.py:75-152 | the page loop of `extract_pdf_chunks` returns the chunk list of the functional definition, and that list has the properties of `Ingestion.ChunkDocumentProperties`; how each page's words are tiled is `Ingestion.PageTiling` |
| `Ingestion.IngestDocument` | backend/app/services/ingestion.py:23-72 | the committed row keeps its id and filename and is INDEXED exactly when saving and extraction succeed and indexing succeeds or is skipped because there are no chunks. An INDEXED row has the chunk count, page count, path and index time. A FAILED row has no chunk count and no index time, carries the message of the step that raised, and keeps only the fields set before that step |
| `AnswerService.Clamp` | backend/app/services/answer.py:93 | the clamped value lies in [0, 1], is the value itself inside it, and is 0 below and 1 above |
| `AnswerService.TailConfidence` | backend/app/services/answer.py:90-95 | the confidence read from the text after the marker lies in [0, 1]. It is 0.5 when there is no token or the first token does not parse, and otherwise the clamped parsed value |
| `AnswerService.ParseAnswerResponse` | backend/app/services/answer.py:85-111 | confidence lies in [0, 1]. The answer is partial exactly when the response contains `INSUFFICIENT_DATA` and yes otherwise. Without `CONFIDENCE:` the text is the response unchanged and the confidence is 0.5. The text is never longer than the response |
| `AnswerService.ParseAnswerResponseMarked` | backend/app/services/answer.py:89-105 | with the marker present, the text is the stripped prefix before its last occurrence and the confidence is read from the text after that occurrence |
| `AnswerService.CitationKeyInjective` | backend/app/services/answer.py:124-125 | two citation keys `f"{doc_name}_p{page}"` are equal only for the same document name and page, so the `seen` set deduplicates exactly by (name, page) |
| `AnswerService.Snippet` | backend/app/services/answer.py:132 | a text of at most 200 characters is kept whole; a longer one becomes its first 200 characters followed by `...` |
| `AnswerService.NamelessAlwaysMentioned` | backend/app/services/answer.py:120-127 | a chunk without a document name is mentioned by every answer |
| `AnswerService.ExtractCitationsLoop` | backend/app/services/answer.py:114-137 | the loop with its `seen` set computes the citation list of the functional definition, which has at most one entry per chunk |
| `AnswerService.ExtractCitationsSources` | backend/app/services/answer.py:119-134 | each citation is made from one input chunk that the answer mentions, and the citations follow chunk order. That chunk is the first mentioned chunk with its document name and page, so a later chunk of the same page never supplies the chunk id, document id or snippet |
| `AnswerService.ExtractCitationsDistinct` | backend/app/services/answer.py:124-135 | no two citations share a document name and page |
| `AnswerService.ExtractCitationsComplete` | backend/app/services/answer.py:119-135 | every mentioned chunk is represented: some citation carries its document name and page |
| `AnswerService.GenerateAnswer` | backend/app/services/answer.py:140-209 | an existing answer is returned unchanged with the store untouched and without consulting search or the model. Otherwise the result fails exactly when search fails, with its error. On success it appends one GENERATED row for the question with the drawn id, no manual text and a confidence in [0, 1]. When nothing is retrieved that row is the fixed no-documents answer with confidence 0.0, answerability no and no citations. Otherwise its variants are the model's answers at temperatures 0.7 and 0.9 and its text, confidence and answerability are parsed from the merge at 0.3. Its citations are extracted from that parsed text |
| `AnswerService.GenerateAnswerAnswers` | backend/app/services/answer.py:147-209 | after generating, the question's answer is the one returned |
| `AnswerService.GenerateAnswerValid` | backend/app/services/answer.py:193-206 | generating for a stored question with a fresh uuid keeps the store valid |
| `AnswerService.GenerateEach` | backend/app/services/answer.py:221-229 | the batch loop counts one success or one error per question, touches only the answers table, and only adds rows to it |
| `AnswerService.GenerateEachErrorsInOrder` | backend/app/services/answer.py:221-229 | the error entries name questions of the batch in question order |
| `AnswerService.GenerateEachCovers` | backend/app/services/answer.py:221-229 | a failure never aborts the batch: every question ends with an answer or an error entry |
| `AnswerService.GenerateEachFailures` | backend/app/services/answer.py:221-229 | over questions with distinct ids, the error entries are exactly `FailedQuestions`: one for each question that has no answer before the batch and whose search fails, in question order and with the search error. Every other question counts as generated |
| `AnswerService.FailedQuestionsNames` | backend/app/services/answer.py:221-229 | a question of a distinct-id list has an error entry exactly when it fails, and each of its entries carries its own search error |
| `AnswerService.GenerateEachKeepsAnswers` | backend/app/services/answer.py:147-150 | a question that has an answer keeps that same answer through the rest of the batch |
| `AnswerService.GenerateEachValid` | backend/app/services/answer.py:221-229 | the batch over stored questions with fresh, distinct uuids keeps the store valid |
| `AnswerService.GenerateAnswersForProject` | backend/app/services/answer.py:212-231 | the result names the project, its total is the number of the project's questions and equals generated plus errors, and only answer rows are added |
| `AnswerService.GenerateAnswersForProjectSound` | backend/app/services/answer.py:212-231 | over the project's questions no question is lost, errors are in question order, and the store stays valid |
| `AnswerService.GenerateAnswersForProjectFailures` | backend/app/services/answer.py:212-231 | for the project's questions the errors are exactly those of the questions that fail, each with its search error, and `generated` counts all the others |
| `AnswersApi.GetAnswer` | backend/app/api/answers.py:11-17 | the answer is returned exactly when a row has that id, and the row returned has it; otherwise 404 "Answer not found" |
| `AnswersApi.GenerateSingleAnswer` | backend/app/api/answers.py:20-30 | the route fails with 404 "Question not found" exactly when no question has the id. For a stored question it fails exactly when `generate_answer` fails, and then with the 500 of the search error escaping the handler. On success it returns the answer and store `generate_answer` produced: the answer is the question's stored answer, questions are untouched and answer rows are only added |
| `AnswersApi.GenerateSingleAnswerAgain` | backend/app/api/answers.py:20-30 | asking again for an answered question returns the stored answer and writes nothing |
| `AnswersApi.GenerateSingleAnswerValid` | backend/app/api/answers.py:20-30 | generating through the route with a fresh uuid keeps the store valid |
| `AnswersApi.UpdateAnswer` | backend/app/api/answers.py:33-53 | the update fails with 404 exactly when no row has the id, and succeeds exactly when the row exists and the status is one of the five values; every other failure is the 400 that lists them. On success only that row changes, and only its status and manual text. The status is the one given. The manual text stays unchanged unless the status is MANUAL and the given text is non-empty, and in that case it is the given text |
| `AnswersApi.UpdateAnswerAnyStatus` | backend/app/api/answers.py:40-45 | there is no transition guard: every status can be set on every existing answer |
| `AnswersApi.UpdateAnswerIdempotent` | backend/app/api/answers.py:33-53 | repeating the same update changes nothing more |
| `AnswersApi.UpdateAnswerThenGet` | backend/app/api/answers.py:33-53 | reading the answer after an update returns the updated row |
| `AnswersApi.UpdateAnswerValid` | backend/app/api/answers.py:45-49 | a review update keeps the store valid |
| `ProjectsApi.CatalogLastWins` | backend/app/api/projects.py:75-81 | the flattened catalogue knows exactly the ids that occur in the sample file, and a repeated id keeps the section and text of its last occurrence |
| `ProjectsApi.FlattenSample` | backend/app/api/projects.py:75-81 | the nested flattening loop builds the catalogue of the functional definition |
| `ProjectsApi.SelectQuestions` | backend/app/api/projects.py:84-93 | no more question rows are added than ids were requested |
| `ProjectsApi.SelectQuestionsRows` | backend/app/api/projects.py:84-93 | every added row carries the catalogue entry of the id requested at its order index, the uuid drawn at that position and the project id, with order indices strictly increasing |
| `ProjectsApi.SelectQuestionsAll` | backend/app/api/projects.py:84-93 | every requested position whose id is in the catalogue gets a row; unknown ids are skipped and repeated ids are added again |
| `ProjectsApi.AddedQuestionsFacts` | backend/app/api/projects.py:84-93 | the added rows belong to the project, their ids are the uuids drawn at their order indices, and no two share an id |
| `ProjectsApi.CreateProject` | backend/app/api/projects.py:55-97 | the new project has the given id, name and description and status DRAFT, and is appended. Answers and documents are untouched. Question rows are added only when ids were requested and the sample file exists |
| `ProjectsApi.CreateProjectQuestions` | backend/app/api/projects.py:55-97 | the new project's questions are exactly the rows added for it |
| `ProjectsApi.CreateProjectUnanswered` | backend/app/api/projects.py:55-97 | no question of the new project has an answer |
| `ProjectsApi.CreateProjectValid` | backend/app/api/projects.py:55-97 | creating a project with fresh uuids keeps the store valid |
| `ProjectsApi.CountAnsweredBounds` | backend/app/api/projects.py:42 | `answered_count` is at most the question count, equals it exactly when every question's answer has left PENDING, and is zero exactly when none has |
| `ProjectsApi.ListProjects` | backend/app/api/projects.py:35-52 | one summary per project row in table order, with that row's id, name and status, the number of its questions, and as answered count the number of those questions whose answer has left PENDING, which is no larger |
| `ProjectsApi.GetProject` | backend/app/api/projects.py:100-106 | the project is returned exactly when a row has the id, otherwise 404 "Project not found". Each question comes with its answer |
| `ProjectsApi.DeleteProject` | backend/app/api/projects.py:109-118 | the delete fails with 404 exactly when no row has the id, and otherwise performs the cascading delete and replies `deleted` with the id |
| `ProjectsApi.DeleteProjectThenGet` | backend/app/api/projects.py:109-118 | after a delete the project reads as not found and the store stays valid |
| `ProjectsApi.GenerateAllAnswers` | backend/app/api/projects.py:121-136 | the route fails with 404 exactly when no row has the id. Otherwise it marks that project row READY whatever the per-question errors, leaves every other project row alone, and returns the batch result and answers table of the project's batch, with questions and documents untouched |
| `ProjectsApi.GenerateAllAnswersCovers` | backend/app/api/projects.py:121-136 | through the route every question of the project ends with an answer or an error entry, and the error entries follow question order |
| `ProjectsApi.GenerateAllAnswersFailures` | backend/app/api/projects.py:121-136 | through the route, an error entry exactly for each of the project's questions that fails, with its search error, and every other question counted as generated |
| `ProjectsApi.GenerateAllAnswersSound` | backend/app/api/projects.py:121-136 | after the batch the project reads back as READY, and the store stays valid when the answer uuids are fresh |

The column defaults of fresh rows are the definitions `Database.NewProject`,
`Database.NewAnswer` and `Database.NewDocument`, which the operations above
build on. For example, a fresh answer is PENDING with confidence 0.0,
answerability unknown, empty texts and no citations.

## Left out

- The language model client and `call_llm` (backend/app/services/answer.py:15-18, 68-82) are not modelled. The model is an uninterpreted function of the prompt and temperature that never fails.
- The prompt builders (backend/app/services/answer.py:21-65) are not modelled. The two prompts are kept as a datatype of their inputs, because their wording affects only what the model returns.
- The executor and `asyncio.gather` concurrency of the two variants (backend/app/services/answer.py:174-180) are not modelled. The two variants are two calls of the model function.
- Float parsing of the confidence token is not modelled. It is a parameter that returns a real or nothing, with no NaN, infinity or rounding behaviour.
- The vector index (backend/app/services/indexer.py) is not part of this model. Search is a parameter returning chunks or an error, and a metadata key it may omit is an `Option`.
- PDF text extraction, page counting and file writes (backend/app/services/ingestion.py:19-20, 44-56, 92-100) are not modelled. The chunker takes the page texts, and each ingestion step's outcome is a parameter.
- Sessions, commits, refreshes and engine setup are not modelled. The store is an immutable value with one table per row type, and a route returns the new store.
- Uuids and `datetime.utcnow()` are parameters, and the `created_at`/`updated_at` columns are not modelled. Validity results assume fresh uuids, which is what uuid4 gives in practice.
- Reading the sample-question file (backend/app/api/projects.py:21, 27-32, 70-72) and `get_sample_questions` are not modelled. The parsed sections, or their absence, are an input. A section or question missing a required key, which raises `KeyError` in the source, is not modelled.
- The streaming endpoint `generate_answers_stream` (backend/app/api/projects.py:139-167) is not modelled: it is streaming plumbing. The `generate_answers_for_project_with_progress` function it imports is not part of this model.
- backend/app/api/documents.py, backend/app/models/schemas.py, backend/app/main.py and the settings loader are not part of this model. The settings' temperatures 0.7, 0.9 and 0.3 (backend/app/config.py:25-27) are constants.
- The HTTP layer's response rendering is not modelled. A search failure escaping `generate_single_answer` is the framework's 500 response.
- `Ingestion.OverlapWords`: Python divides through a float. For an overlap of magnitude 5·2^51 or more the rounded quotient can cross an integer, so Python's value can be one further from zero than the model's (for 5·2^51 + 4 Python gives 2^51 + 1 and the model 2^51). When the quotient is too large for a float (an overlap above about 9·10^308) Python raises `OverflowError`. Neither is modelled: the only caller passes 200.
- `Text.Lower`: lower-cases ASCII letters only, not full Unicode case mapping; its contract states only that the length is kept.
- `Text.Split`: whitespace is Python's `str.isspace()` set written out as a character list, with no Unicode database behind it.
- Concurrent route calls are not modelled: every route runs alone on the store it is given. The invariant `Database.OneAnswerPerQuestion`, part of `Database.Valid`, therefore holds for sequential calls only. `generate_answer` checks for an existing answer (backend/app/services/answer.py:148-150), awaits the model (backend/app/services/answer.py:180) and only then inserts (backend/app/services/answer.py:205-206), and the `question_id` column has no unique constraint (backend/app/models/database.py:69), so two overlapping calls for one question could both insert.
- `AnswerService.GenerateEach`: a failure is modelled only where the search reports one. An exception raised elsewhere inside `generate_answer`, such as a database error, is not modelled.
