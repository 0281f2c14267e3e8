/**
 The project routes: listing projects with their review progress, creating a
 project from the sample question catalogue, reading and deleting a project,
 and generating every answer of a project. The sample file's contents (or its
 absence) and the uuids are inputs.
 */
module ProjectsApi {
  import opened Wrappers
  import opened Database
  import opened AnswerService
  import opened Http

  const ProjectNotFound: HttpError := HttpError(NotFound, "Project not found")

  // ---------------------------------------------------------------------------
  // The sample question catalogue

  datatype SampleQuestion = SampleQuestion(id: string, text: string)

  /** A section of the sample file; a missing `questions` key reads as no questions. */
  datatype SampleSection = SampleSection(name: string, questions: seq<SampleQuestion>)

  datatype CatalogEntry = CatalogEntry(section: string, text: string)

  datatype CatalogItem = CatalogItem(id: string, entry: CatalogEntry)

  /** The questions of one section, each paired with the section's name. */
  function SectionItems(s: SampleSection): seq<CatalogItem> {
    seq(|s.questions|, i requires 0 <= i < |s.questions| =>
      CatalogItem(s.questions[i].id, CatalogEntry(s.name, s.questions[i].text)))
  }

  /** Every sample question in file order: sections in order, questions in order. */
  function Items(sections: seq<SampleSection>): seq<CatalogItem>
    decreases |sections|
  {
    if |sections| == 0 then [] else Items(sections[..|sections| - 1]) + SectionItems(sections[|sections| - 1])
  }

  /** The dictionary the items are written into one after the other. */
  function Catalog(items: seq<CatalogItem>): map<string, CatalogEntry>
    decreases |items|
  {
    if |items| == 0 then map[]
    else
      var last := items[|items| - 1];
      Catalog(items[..|items| - 1])[last.id := last.entry]
  }

  lemma CatalogAppend(items: seq<CatalogItem>, x: CatalogItem)
    ensures Catalog(items + [x]) == Catalog(items)[x.id := x.entry]
  {
    assert (items + [x])[..|items|] == items;
  }

  /** A question id repeated in the file keeps the entry of its last occurrence, and the
      catalogue knows exactly the ids that occur. */
  lemma {:induction false} CatalogLastWins(items: seq<CatalogItem>, id: string)
    ensures id in Catalog(items) <==> exists j :: 0 <= j < |items| && items[j].id == id
    ensures id in Catalog(items) ==> exists j ::
      && 0 <= j < |items| && items[j].id == id && Catalog(items)[id] == items[j].entry
      && (forall j' :: j < j' < |items| ==> items[j'].id != id)
    decreases |items|
  {
    if |items| > 0 {
      var n := |items| - 1;
      var prev := items[..n];
      CatalogLastWins(prev, id);
      assert forall j :: 0 <= j < n ==> prev[j] == items[j];
      if items[n].id != id && id in Catalog(items) {
        var j :| 0 <= j < n && prev[j].id == id && Catalog(prev)[id] == prev[j].entry
          && (forall j' :: j < j' < n ==> prev[j'].id != id);
        assert items[j].id == id && Catalog(items)[id] == items[j].entry;
      }
    }
  }

  lemma ItemsStep(sections: seq<SampleSection>, i: nat)
    requires i < |sections|
    ensures Items(sections[..i + 1]) == Items(sections[..i]) + SectionItems(sections[i])
  {
    assert sections[..i + 1][..i] == sections[..i];
  }

  lemma CatalogStep(done: seq<CatalogItem>, section: SampleSection, j: nat)
    requires j < |section.questions|
    ensures var q := section.questions[j];
      Catalog(done + SectionItems(section)[..j + 1])
        == Catalog(done + SectionItems(section)[..j])[q.id := CatalogEntry(section.name, q.text)]
  {
    var items := SectionItems(section);
    assert done + items[..j + 1] == (done + items[..j]) + [items[j]];
    CatalogAppend(done + items[..j], items[j]);
  }

  /** The nested loop of `create_project` that flattens the sample file. */
  method FlattenSample(sections: seq<SampleSection>) returns (catalog: map<string, CatalogEntry>)
    ensures catalog == Catalog(Items(sections))
  {
    catalog := map[];
    var i := 0;
    while i < |sections|
      invariant 0 <= i <= |sections|
      invariant catalog == Catalog(Items(sections[..i]))
    {
      var section := sections[i];
      var done := Items(sections[..i]);
      var j := 0;
      assert done + SectionItems(section)[..0] == done;
      while j < |section.questions|
        invariant 0 <= j <= |section.questions|
        invariant catalog == Catalog(done + SectionItems(section)[..j])
      {
        var q := section.questions[j];
        CatalogStep(done, section, j);
        catalog := catalog[q.id := CatalogEntry(section.name, q.text)];
        j := j + 1;
      }
      assert SectionItems(section)[..j] == SectionItems(section);
      ItemsStep(sections, i);
      i := i + 1;
    }
    assert sections[..i] == sections;
  }

  // ---------------------------------------------------------------------------
  // Creating a project

  /** The body of `POST /projects`. */
  datatype ProjectCreate = ProjectCreate(name: string, description: string, questionIds: seq<string>)

  /** The question rows added for the requested ids, in request order: an id the catalogue
      does not know is skipped, a repeated id is added again, and the order index is the
      position in the request. `questionId(idx)` is the uuid drawn at position `idx`. */
  function SelectQuestions(projectId: string, requested: seq<string>, catalog: map<string, CatalogEntry>,
                           questionId: nat -> string): (qs: seq<Question>)
    ensures |qs| <= |requested|
    decreases |requested|
  {
    if |requested| == 0 then []
    else
      var n := |requested| - 1;
      var prev := SelectQuestions(projectId, requested[..n], catalog, questionId);
      if requested[n] in catalog then
        var entry := catalog[requested[n]];
        prev + [Question(questionId(n), projectId, entry.section, entry.text, n)]
      else
        prev
  }

  /** A row `create_project` may add: it carries the catalogue entry of the id requested at
      its order index. */
  ghost predicate SelectedRow(projectId: string, requested: seq<string>, catalog: map<string, CatalogEntry>,
                              questionId: nat -> string, q: Question) {
    && 0 <= q.orderIndex < |requested|
    && requested[q.orderIndex] in catalog
    && q == Question(questionId(q.orderIndex), projectId, catalog[requested[q.orderIndex]].section,
                     catalog[requested[q.orderIndex]].text, q.orderIndex)
  }

  /** Every selected row carries the entry requested at its order index, in increasing
      order of index. */
  ghost predicate SelectedRows(projectId: string, requested: seq<string>, catalog: map<string, CatalogEntry>,
                               questionId: nat -> string, qs: seq<Question>) {
    && (forall i :: 0 <= i < |qs| ==> SelectedRow(projectId, requested, catalog, questionId, qs[i]))
    && (forall i, j :: 0 <= i < j < |qs| ==> qs[i].orderIndex < qs[j].orderIndex)
  }

  /** Every known position of the request has its row. */
  ghost predicate SelectedAll(requested: seq<string>, catalog: map<string, CatalogEntry>, qs: seq<Question>) {
    forall idx :: 0 <= idx < |requested| && requested[idx] in catalog ==>
      exists i :: 0 <= i < |qs| && qs[i].orderIndex == idx
  }

  lemma SelectedRowExtend(projectId: string, requested: seq<string>, n: nat, catalog: map<string, CatalogEntry>,
                          questionId: nat -> string, q: Question)
    requires n <= |requested| && SelectedRow(projectId, requested[..n], catalog, questionId, q)
    ensures SelectedRow(projectId, requested, catalog, questionId, q) && q.orderIndex < n
  {
    assert requested[..n][q.orderIndex] == requested[q.orderIndex];
  }

  /** The selection holds only rows for known positions of the request, in request order. */
  lemma {:induction false} SelectQuestionsRows(projectId: string, requested: seq<string>,
                                               catalog: map<string, CatalogEntry>, questionId: nat -> string)
    ensures SelectedRows(projectId, requested, catalog, questionId,
                         SelectQuestions(projectId, requested, catalog, questionId))
    decreases |requested|
  {
    var qs := SelectQuestions(projectId, requested, catalog, questionId);
    if |requested| > 0 {
      var n := |requested| - 1;
      var prev := SelectQuestions(projectId, requested[..n], catalog, questionId);
      SelectQuestionsRows(projectId, requested[..n], catalog, questionId);
      forall i | 0 <= i < |prev|
        ensures SelectedRow(projectId, requested, catalog, questionId, prev[i]) && prev[i].orderIndex < n
      {
        SelectedRowExtend(projectId, requested, n, catalog, questionId, prev[i]);
      }
      assert forall i :: 0 <= i < |prev| ==> qs[i] == prev[i];
    }
  }

  /** The selection misses no known position of the request. */
  lemma {:induction false} SelectQuestionsAll(projectId: string, requested: seq<string>,
                                              catalog: map<string, CatalogEntry>, questionId: nat -> string)
    ensures SelectedAll(requested, catalog, SelectQuestions(projectId, requested, catalog, questionId))
    decreases |requested|
  {
    var qs := SelectQuestions(projectId, requested, catalog, questionId);
    if |requested| > 0 {
      var n := |requested| - 1;
      var pre := requested[..n];
      var prev := SelectQuestions(projectId, pre, catalog, questionId);
      SelectQuestionsAll(projectId, pre, catalog, questionId);
      assert forall i :: 0 <= i < |prev| ==> qs[i] == prev[i];
      forall idx | 0 <= idx < |requested| && requested[idx] in catalog
        ensures exists i :: 0 <= i < |qs| && qs[i].orderIndex == idx
      {
        if idx < n {
          assert pre[idx] == requested[idx];
          var i :| 0 <= i < |prev| && prev[i].orderIndex == idx;
          assert qs[i].orderIndex == idx;
        } else {
          assert qs[|qs| - 1].orderIndex == idx;
        }
      }
    }
  }

  /** The rows `create_project` adds for its questions. */
  function AddedQuestions(projectId: string, data: ProjectCreate, sample: Option<seq<SampleSection>>,
                          questionId: nat -> string): seq<Question>
  {
    if |data.questionIds| > 0 && sample.Some? then
      SelectQuestions(projectId, data.questionIds, Catalog(Items(sample.value)), questionId)
    else []
  }

  /** The added rows belong to the project and carry distinct uuids. */
  lemma AddedQuestionsFacts(projectId: string, data: ProjectCreate, sample: Option<seq<SampleSection>>,
                            questionId: nat -> string)
    requires forall i, j :: i != j ==> questionId(i) != questionId(j)
    ensures var added := AddedQuestions(projectId, data, sample, questionId);
      && (forall i :: 0 <= i < |added| ==>
            added[i].projectId == projectId && 0 <= added[i].orderIndex && added[i].id == questionId(added[i].orderIndex))
      && Distinct(added, QuestionKey)
  {
    if |data.questionIds| > 0 && sample.Some? {
      SelectQuestionsRows(projectId, data.questionIds, Catalog(Items(sample.value)), questionId);
    }
  }

  /** `create_project`: a DRAFT project, and question rows only when ids were requested and
      the sample file exists; no answer row is created. */
  function CreateProject(db: Db, projectId: string, data: ProjectCreate, sample: Option<seq<SampleSection>>,
                         questionId: nat -> string): (r: (Db, Project))
    ensures r.1.id == projectId && r.1.name == data.name && r.1.description == data.description
    ensures r.1.status == Draft
    ensures r.0.projects == db.projects + [r.1]
    ensures r.0.answers == db.answers && r.0.documents == db.documents
    ensures r.0.questions == db.questions + AddedQuestions(projectId, data, sample, questionId)
    ensures (|data.questionIds| == 0 || sample.None?) ==> r.0.questions == db.questions
  {
    var project := NewProject(projectId, data.name, data.description);
    (Db(db.projects + [project], db.questions + AddedQuestions(projectId, data, sample, questionId),
        db.answers, db.documents), project)
  }

  /** Uuids that are new to the store and distinct from each other. */
  ghost predicate FreshCreate(db: Db, projectId: string, questionId: nat -> string) {
    && projectId !in ProjectIds(db)
    && (forall i :: questionId(i) !in QuestionIds(db))
    && (forall i, j :: i != j ==> questionId(i) != questionId(j))
  }

  /** The new project's questions are exactly the rows added for it. */
  lemma CreateProjectQuestions(db: Db, projectId: string, data: ProjectCreate, sample: Option<seq<SampleSection>>,
                               questionId: nat -> string)
    requires Valid(db) && projectId !in ProjectIds(db)
    ensures QuestionsOf(CreateProject(db, projectId, data, sample, questionId).0, projectId)
      == AddedQuestions(projectId, data, sample, questionId)
  {
    var added := AddedQuestions(projectId, data, sample, questionId);
    var keep := (q: Question) => q.projectId == projectId;
    if |data.questionIds| > 0 && sample.Some? {
      SelectQuestionsRows(projectId, data.questionIds, Catalog(Items(sample.value)), questionId);
    }
    assert forall q :: q in added ==> keep(q);
    forall q | q in db.questions ensures !keep(q) {
      assert q.projectId in ProjectIds(db);
    }
    FilterNone(db.questions, keep);
    FilterAll(added, keep);
    FilterAppend(db.questions, added, keep);
  }

  /** None of the new project's questions has an answer yet. */
  lemma CreateProjectUnanswered(db: Db, projectId: string, data: ProjectCreate, sample: Option<seq<SampleSection>>,
                                questionId: nat -> string)
    requires Valid(db) && FreshCreate(db, projectId, questionId)
    ensures var db' := CreateProject(db, projectId, data, sample, questionId).0;
      forall q :: q in QuestionsOf(db', projectId) ==> AnswerOf(db', q.id).None?
  {
    var db' := CreateProject(db, projectId, data, sample, questionId).0;
    var added := AddedQuestions(projectId, data, sample, questionId);
    CreateProjectQuestions(db, projectId, data, sample, questionId);
    AddedQuestionsFacts(projectId, data, sample, questionId);
    forall q | q in added ensures AnswerOf(db', q.id).None? {
      var i :| 0 <= i < |added| && added[i] == q;
      assert q.id == questionId(q.orderIndex) && q.id !in QuestionIds(db);
      NoAnswerOf(db', q.id);
      forall a | a in db'.answers ensures a.questionId != q.id {
        assert a in db.answers && a.questionId in QuestionIds(db);
      }
    }
  }

  /** Creating a project with fresh uuids keeps the store valid. */
  lemma CreateProjectValid(db: Db, projectId: string, data: ProjectCreate, sample: Option<seq<SampleSection>>,
                           questionId: nat -> string)
    requires Valid(db) && FreshCreate(db, projectId, questionId)
    ensures Valid(CreateProject(db, projectId, data, sample, questionId).0)
  {
    var (db', project) := CreateProject(db, projectId, data, sample, questionId);
    var added := AddedQuestions(projectId, data, sample, questionId);
    AddedQuestionsFacts(projectId, data, sample, questionId);
    forall i, j | 0 <= i < |db.questions| && 0 <= j < |added|
      ensures QuestionKey(db.questions[i]) != QuestionKey(added[j])
    {
      assert db.questions[i] in db.questions && db.questions[i].id in QuestionIds(db);
      assert added[j].id == questionId(added[j].orderIndex) && added[j].id !in QuestionIds(db);
    }
    DistinctAppend(db.questions, added, QuestionKey);
    forall i, j | 0 <= i < |db.projects| && 0 <= j < 1
      ensures ProjectKey(db.projects[i]) != ProjectKey([project][j])
    {
      assert db.projects[i] in db.projects;
    }
    DistinctAppend(db.projects, [project], ProjectKey);
    assert project in db'.projects;
    forall q | q in db'.questions ensures q.projectId in ProjectIds(db') {
      if q in db.questions {
        var p :| p in db.projects && p.id == q.projectId;
        assert p in db'.projects;
      } else {
        var i :| 0 <= i < |added| && added[i] == q;
      }
    }
    forall a | a in db'.answers ensures a.questionId in QuestionIds(db') {
      var q :| q in db.questions && q.id == a.questionId;
      assert q in db'.questions;
    }
  }

  // ---------------------------------------------------------------------------
  // Listing, reading and deleting

  /** A question counts as answered once its answer has left PENDING. */
  predicate Answered(db: Db, q: Question) {
    AnswerOf(db, q.id).Some? && AnswerOf(db, q.id).value.status != Pending
  }

  /** `answered` of `list_projects`. */
  function CountAnswered(db: Db, qs: seq<Question>): nat {
    Count(qs, (q: Question) => Answered(db, q))
  }

  /** Every question is answered exactly when the count reaches the number of questions,
      and none is exactly when it is zero. */
  lemma CountAnsweredBounds(db: Db, qs: seq<Question>)
    ensures CountAnswered(db, qs) <= |qs|
    ensures CountAnswered(db, qs) == |qs| <==> forall i :: 0 <= i < |qs| ==> Answered(db, qs[i])
    ensures CountAnswered(db, qs) == 0 <==> forall i :: 0 <= i < |qs| ==> !Answered(db, qs[i])
  {
    CountAll(qs, (q: Question) => Answered(db, q));
    CountNone(qs, (q: Question) => Answered(db, q));
  }

  datatype ProjectSummary = ProjectSummary(id: string, name: string, status: ProjectStatus,
                                           questionCount: nat, answeredCount: nat)

  /** `GET /projects`: one summary per project row, in table order. */
  function ListProjects(db: Db): (r: seq<ProjectSummary>)
    ensures |r| == |db.projects|
    ensures forall i :: 0 <= i < |r| ==>
      && r[i].id == db.projects[i].id && r[i].name == db.projects[i].name && r[i].status == db.projects[i].status
      && r[i].questionCount == |QuestionsOf(db, db.projects[i].id)|
      && r[i].answeredCount == CountAnswered(db, QuestionsOf(db, db.projects[i].id))
      && r[i].answeredCount <= r[i].questionCount
  {
    seq(|db.projects|, i requires 0 <= i < |db.projects| =>
      var p := db.projects[i];
      var qs := QuestionsOf(db, p.id);
      ProjectSummary(p.id, p.name, p.status, |qs|, CountAnswered(db, qs)))
  }

  datatype QuestionDetail = QuestionDetail(question: Question, answer: Option<Answer>)

  datatype ProjectDetail = ProjectDetail(project: Project, questions: seq<QuestionDetail>)

  /** `GET /projects/{project_id}`: the project with its questions and their answers. */
  function GetProject(db: Db, projectId: string): (r: Result<ProjectDetail, HttpError>)
    ensures r.Ok? <==> exists p :: p in db.projects && p.id == projectId
    ensures r.Err? ==> r.error == ProjectNotFound
    ensures r.Ok? ==> r.value.project in db.projects && r.value.project.id == projectId
    ensures r.Ok? ==>
      var qs := QuestionsOf(db, projectId);
      && |r.value.questions| == |qs|
      && forall i :: 0 <= i < |qs| ==> r.value.questions[i] == QuestionDetail(qs[i], AnswerOf(db, qs[i].id))
  {
    match FindProject(db, projectId)
    case None => Err(ProjectNotFound)
    case Some(k) =>
      var qs := QuestionsOf(db, projectId);
      Ok(ProjectDetail(db.projects[k],
        seq(|qs|, i requires 0 <= i < |qs| => QuestionDetail(qs[i], AnswerOf(db, qs[i].id)))))
  }

  datatype DeleteReply = DeleteReply(status: string, id: string)

  /** `DELETE /projects/{project_id}` */
  function DeleteProject(db: Db, projectId: string): (r: Result<(Db, DeleteReply), HttpError>)
    ensures r.Err? <==> forall p :: p in db.projects ==> p.id != projectId
    ensures r.Err? ==> r.error == ProjectNotFound
    ensures r.Ok? ==> r.value == (DeleteProjectCascade(db, projectId), DeleteReply("deleted", projectId))
  {
    match FindProject(db, projectId)
    case None => Err(ProjectNotFound)
    case Some(_) => Ok((DeleteProjectCascade(db, projectId), DeleteReply("deleted", projectId)))
  }

  /** After a delete the project can no longer be read, and the store stays valid. */
  lemma DeleteProjectThenGet(db: Db, projectId: string)
    requires Valid(db) && DeleteProject(db, projectId).Ok?
    ensures var db' := DeleteProject(db, projectId).value.0;
      GetProject(db', projectId) == Err(ProjectNotFound) && Valid(db')
  {
    DeleteProjectCascadeValid(db, projectId);
  }

  // ---------------------------------------------------------------------------
  // Generating a project's answers

  /** `POST /projects/{project_id}/generate`: the batch, then the project row marked READY. */
  function GenerateAllAnswers(db: Db, projectId: string, env: AnswerEnv): (r: Result<(BatchResult, Db), HttpError>)
    ensures r.Err? <==> forall p :: p in db.projects ==> p.id != projectId
    ensures r.Err? ==> r.error == ProjectNotFound
    ensures r.Ok? ==>
      var k := FindProject(db, projectId).value;
      var (result, db') := r.value;
      && |db'.projects| == |db.projects|
      && db'.projects[k] == db.projects[k].(status := Ready)
      && (forall i :: 0 <= i < |db.projects| && i != k ==> db'.projects[i] == db.projects[i])
      && result.total == |QuestionsOf(db, projectId)|
      && result.generated + |result.errors| == result.total
      && result == GenerateAnswersForProject(db, db.projects[k], env).0
      && db'.answers == GenerateAnswersForProject(db, db.projects[k], env).1.answers
      && db'.questions == db.questions && db'.documents == db.documents
  {
    match FindProject(db, projectId)
    case None => Err(ProjectNotFound)
    case Some(k) =>
      var project := db.projects[k];
      var (result, after) := GenerateAnswersForProject(db, project, env);
      Ok((result, after.(projects := after.projects[k := project.(status := Ready)])))
  }

  /** After the batch the project reads back as READY, and the store stays valid when the
      answer uuids are fresh. */
  lemma GenerateAllAnswersSound(db: Db, projectId: string, env: AnswerEnv)
    requires Valid(db) && FreshForBatch(db, env.answerId, QuestionsOf(db, projectId))
    requires GenerateAllAnswers(db, projectId, env).Ok?
    ensures var (_, db') := GenerateAllAnswers(db, projectId, env).value;
      && Valid(db')
      && GetProject(db', projectId).Ok?
      && GetProject(db', projectId).value.project.status == Ready
  {
    var k := FindProject(db, projectId).value;
    var project := db.projects[k];
    var after := GenerateAnswersForProject(db, project, env).1;
    GenerateAnswersForProjectSound(db, project, env);
    var ready := project.(status := Ready);
    ProjectRowUpdateValid(after, k, ready);
    FindFirstUpdate(db.projects, (p: Project) => p.id == projectId, k, ready);
    assert FindProject(after.(projects := after.projects[k := ready]), projectId) == Some(k);
  }

  /** Which answer a question has depends on the answers table alone. */
  lemma SameAnswersSameAnswerOf(a: Db, b: Db, questionId: string)
    requires a.answers == b.answers
    ensures AnswerOf(a, questionId) == AnswerOf(b, questionId)
  {
  }

  /** Through the route, as in the batch: every question of the project ends with an
      answer or an error entry, and the errors follow question order. */
  lemma GenerateAllAnswersCovers(db: Db, projectId: string, env: AnswerEnv)
    requires Valid(db) && FreshForBatch(db, env.answerId, QuestionsOf(db, projectId))
    requires GenerateAllAnswers(db, projectId, env).Ok?
    ensures var (result, db') := GenerateAllAnswers(db, projectId, env).value;
      && Subsequence(ErrorIds(result.errors), QuestionIdList(QuestionsOf(db, projectId)))
      && (forall q :: q in QuestionsOf(db, projectId) ==>
            AnswerOf(db', q.id).Some? || q.id in ErrorIds(result.errors))
  {
    var k := FindProject(db, projectId).value;
    var after := GenerateAnswersForProject(db, db.projects[k], env).1;
    var db' := GenerateAllAnswers(db, projectId, env).value.1;
    GenerateAnswersForProjectSound(db, db.projects[k], env);
    forall q | q in QuestionsOf(db, projectId)
      ensures AnswerOf(db', q.id) == AnswerOf(after, q.id)
    {
      SameAnswersSameAnswerOf(db', after, q.id);
    }
  }

  /** Through the route, as in the batch: an error entry exactly for each of the
      project's questions that fails, with its search error, and every other question
      counted as generated. */
  lemma GenerateAllAnswersFailures(db: Db, projectId: string, env: AnswerEnv)
    requires Distinct(db.questions, QuestionKey)
    requires GenerateAllAnswers(db, projectId, env).Ok?
    ensures var result := GenerateAllAnswers(db, projectId, env).value.0;
      var qs := QuestionsOf(db, projectId);
      && result.errors == FailedQuestions(db, qs, env)
      && result.generated == |qs| - |result.errors|
      && (forall q :: q in qs ==> (q.id in ErrorIds(result.errors) <==> Fails(db, q, env)))
      && (forall q, e :: q in qs && e in result.errors && e.questionId == q.id ==>
            e.error == env.search(q.questionText, SearchResults).error)
  {
    var k := FindProject(db, projectId).value;
    GenerateAnswersForProjectFailures(db, db.projects[k], env);
  }
}
