/**
 The answer routes: reading one answer, generating the answer of one question,
 and the review update that sets an answer's status and manual override.
 */
module AnswersApi {
  import opened Wrappers
  import opened Database
  import opened AnswerService
  import opened Http

  const AnswerNotFound: HttpError := HttpError(NotFound, "Answer not found")
  const QuestionNotFound: HttpError := HttpError(NotFound, "Question not found")

  /** `GET /answers/{answer_id}` */
  function GetAnswer(db: Db, answerId: string): (r: Result<Answer, HttpError>)
    ensures r.Ok? <==> exists a :: a in db.answers && a.id == answerId
    ensures r.Ok? ==> r.value in db.answers && r.value.id == answerId
    ensures r.Err? ==> r.error == AnswerNotFound
  {
    match FindAnswer(db, answerId)
    case None => Err(AnswerNotFound)
    case Some(k) => Ok(db.answers[k])
  }

  /** `POST /answers/{question_id}/generate`: a search failure escapes the handler. */
  function GenerateSingleAnswer(db: Db, questionId: string, env: AnswerEnv): (r: Result<Generation, HttpError>)
    ensures (forall q :: q in db.questions ==> q.id != questionId) <==> r == Err(QuestionNotFound)
    ensures r.Err? && r.error != QuestionNotFound ==> r.error == InternalError
    ensures r.Ok? ==> r.value.answer.questionId == questionId
    ensures r.Ok? ==> AnswerOf(r.value.db, questionId) == Some(r.value.answer)
    ensures r.Ok? ==> r.value.db.questions == db.questions && db.answers <= r.value.db.answers
    ensures FindQuestion(db, questionId).Some? ==>
      var q := db.questions[FindQuestion(db, questionId).value];
      && (r.Err? <==> GenerateAnswer(db, q, env).Err?)
      && (r.Ok? ==> r.value == GenerateAnswer(db, q, env).value)
  {
    match FindQuestion(db, questionId)
    case None => Err(QuestionNotFound)
    case Some(k) =>
      var q := db.questions[k];
      match GenerateAnswer(db, q, env)
      case Err(_) => Err(InternalError)
      case Ok(g) =>
        GenerateAnswerAnswers(db, q, env);
        Ok(g)
  }

  /** Asking again for a question that has been answered returns the stored answer and
      writes nothing. */
  lemma GenerateSingleAnswerAgain(db: Db, questionId: string, env: AnswerEnv)
    requires GenerateSingleAnswer(db, questionId, env).Ok?
    ensures var g := GenerateSingleAnswer(db, questionId, env).value;
      GenerateSingleAnswer(g.db, questionId, env) == Ok(Generation(g.db, g.answer))
  {
    var g := GenerateSingleAnswer(db, questionId, env).value;
    var k := FindQuestion(db, questionId).value;
    assert FindQuestion(g.db, questionId) == Some(k);
    assert AnswerOf(g.db, db.questions[k].id) == Some(g.answer);
  }

  /** Generating through the route keeps the store valid. */
  lemma GenerateSingleAnswerValid(db: Db, questionId: string, env: AnswerEnv)
    requires Valid(db) && FreshId(db, env.answerId, questionId)
    requires GenerateSingleAnswer(db, questionId, env).Ok?
    ensures Valid(GenerateSingleAnswer(db, questionId, env).value.db)
  {
    var q := db.questions[FindQuestion(db, questionId).value];
    GenerateAnswerValid(db, q, env);
  }

  // ---------------------------------------------------------------------------
  // Review

  /** The body of `PATCH /answers/{answer_id}`. */
  datatype AnswerUpdate = AnswerUpdate(status: string, manualAnswer: Option<string>)

  /** The detail names the accepted values as Python renders the list of them. */
  const InvalidStatus: HttpError :=
    HttpError(BadRequest, "Invalid status. Must be one of: ['PENDING', 'GENERATED', 'CONFIRMED', 'REJECTED', 'MANUAL']")

  /** Python truthiness of an optional string. */
  predicate Truthy(s: Option<string>) {
    s.Some? && |s.value| > 0
  }

  /** `update_answer`: any known status may be set from any status; the manual text is
      written only with `MANUAL` and a non-empty override. */
  function UpdateAnswer(db: Db, answerId: string, data: AnswerUpdate): (r: Result<(Db, Answer), HttpError>)
    ensures (forall a :: a in db.answers ==> a.id != answerId) <==> r == Err(AnswerNotFound)
    ensures r.Ok? <==> (exists a :: a in db.answers && a.id == answerId) && data.status in AnswerStatusValues
    ensures r.Err? && r.error != AnswerNotFound ==> r.error == InvalidStatus
    ensures r.Ok? ==>
      var (db', a) := r.value;
      var k := FindAnswer(db, answerId).value;
      && db' == db.(answers := db.answers[k := a])
      && a.id == answerId
      && AnswerStatusValue(a.status) == data.status
      && a == db.answers[k].(status := a.status, manualAnswer := a.manualAnswer)
      && (!(a.status == Manual && Truthy(data.manualAnswer)) ==> a.manualAnswer == db.answers[k].manualAnswer)
      && (a.status == Manual && Truthy(data.manualAnswer) ==> a.manualAnswer == data.manualAnswer.value)
  {
    match FindAnswer(db, answerId)
    case None => Err(AnswerNotFound)
    case Some(k) =>
      match ParseAnswerStatus(data.status)
      case None => Err(InvalidStatus)
      case Some(status) =>
        var row := db.answers[k];
        var manual := if status == Manual && Truthy(data.manualAnswer) then data.manualAnswer.value else row.manualAnswer;
        var a := row.(status := status, manualAnswer := manual);
        AnswerStatusRoundTrip(status);
        Ok((db.(answers := db.answers[k := a]), a))
  }

  /** There is no transition guard: every status can be reached from every answer. */
  lemma UpdateAnswerAnyStatus(db: Db, answerId: string, s: AnswerStatus)
    requires exists a :: a in db.answers && a.id == answerId
    ensures var r := UpdateAnswer(db, answerId, AnswerUpdate(AnswerStatusValue(s), None));
      r.Ok? && r.value.1.status == s
  {
    AnswerStatusRoundTrip(s);
  }

  /** Repeating a review update changes nothing more. */
  lemma UpdateAnswerIdempotent(db: Db, answerId: string, data: AnswerUpdate)
    requires UpdateAnswer(db, answerId, data).Ok?
    ensures var (db', a) := UpdateAnswer(db, answerId, data).value;
      UpdateAnswer(db', answerId, data) == Ok((db', a))
  {
    var (db', a) := UpdateAnswer(db, answerId, data).value;
    var k := FindAnswer(db, answerId).value;
    FindFirstUpdate(db.answers, (x: Answer) => x.id == answerId, k, a);
    assert FindAnswer(db', answerId) == Some(k);
    assert db'.answers[k] == a;
    assert db'.answers[k := a] == db'.answers;
  }

  /** Reading the answer back after an update gives the updated row. */
  lemma UpdateAnswerThenGet(db: Db, answerId: string, data: AnswerUpdate)
    requires UpdateAnswer(db, answerId, data).Ok?
    ensures var (db', a) := UpdateAnswer(db, answerId, data).value;
      GetAnswer(db', answerId) == Ok(a)
  {
    var (db', a) := UpdateAnswer(db, answerId, data).value;
    var k := FindAnswer(db, answerId).value;
    FindFirstUpdate(db.answers, (x: Answer) => x.id == answerId, k, a);
    assert FindAnswer(db', answerId) == Some(k);
  }

  /** A review update keeps the store valid: it touches neither the id nor the question of
      the row. */
  lemma UpdateAnswerValid(db: Db, answerId: string, data: AnswerUpdate)
    requires Valid(db) && UpdateAnswer(db, answerId, data).Ok?
    ensures Valid(UpdateAnswer(db, answerId, data).value.0)
  {
    var (db', a) := UpdateAnswer(db, answerId, data).value;
    var k := FindAnswer(db, answerId).value;
    assert AnswerKey(a) == AnswerKey(db.answers[k]) && AnsweredQuestion(a) == AnsweredQuestion(db.answers[k]);
    forall i | 0 <= i < |db'.answers|
      ensures AnswerKey(db'.answers[i]) == AnswerKey(db.answers[i])
      ensures AnsweredQuestion(db'.answers[i]) == AnsweredQuestion(db.answers[i])
    {
    }
    forall x | x in db'.answers
      ensures x.questionId in QuestionIds(db')
    {
      var i :| 0 <= i < |db'.answers| && db'.answers[i] == x;
      assert db.answers[i] in db.answers;
    }
  }
}
