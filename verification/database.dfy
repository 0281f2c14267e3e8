/**
 The persistent records of the questionnaire service: the three status
 enumerations, the Project / Question / Answer / Document rows with their
 column defaults, and the store as four tables. A table is the sequence of
 its rows in insertion order, which is the order in which an unordered
 query's `.first()` and a relationship load return them.
 */
module Database {
  import opened Wrappers

  datatype ProjectStatus = Draft | Ready | Outdated

  datatype AnswerStatus = Pending | Generated | Confirmed | Rejected | Manual

  /** `Waiting` is the member stored as "PENDING"; it is named apart from
      `AnswerStatus.Pending`, which lives in the same module. */
  datatype DocumentStatus = Waiting | Indexing | Indexed | Failed

  /** The `is_answerable` column: "yes", "no", "partial" or "unknown". */
  datatype Answerability = Yes | No | Partial | Unknown

  /** The stored string of an answer status (the enum member's `.value`). */
  function AnswerStatusValue(s: AnswerStatus): string {
    match s
    case Pending => "PENDING"
    case Generated => "GENERATED"
    case Confirmed => "CONFIRMED"
    case Rejected => "REJECTED"
    case Manual => "MANUAL"
  }

  /** `[s.value for s in AnswerStatus]`, in declaration order. */
  const AnswerStatusValues: seq<string> := ["PENDING", "GENERATED", "CONFIRMED", "REJECTED", "MANUAL"]

  /** The answer status whose stored string is `v`; none when `v` names no member. */
  function ParseAnswerStatus(v: string): (r: Option<AnswerStatus>)
    ensures r.Some? <==> v in AnswerStatusValues
    ensures r.Some? ==> AnswerStatusValue(r.value) == v
  {
    if v == "PENDING" then Some(Pending)
    else if v == "GENERATED" then Some(Generated)
    else if v == "CONFIRMED" then Some(Confirmed)
    else if v == "REJECTED" then Some(Rejected)
    else if v == "MANUAL" then Some(Manual)
    else None
  }

  /** Every answer status is recovered from its stored string, and the five
      stored strings are exactly the accepted ones. */
  lemma AnswerStatusRoundTrip(s: AnswerStatus)
    ensures ParseAnswerStatus(AnswerStatusValue(s)) == Some(s)
    ensures AnswerStatusValue(s) in AnswerStatusValues
  {
  }

  /** The stored string of a project status. */
  function ProjectStatusValue(s: ProjectStatus): string {
    match s
    case Draft => "DRAFT"
    case Ready => "READY"
    case Outdated => "OUTDATED"
  }

  /** The stored string of a document status. */
  function DocumentStatusValue(s: DocumentStatus): string {
    match s
    case Waiting => "PENDING"
    case Indexing => "INDEXING"
    case Indexed => "INDEXED"
    case Failed => "FAILED"
  }

  /** Distinct enum members are stored as distinct strings. */
  lemma StatusValuesDistinct()
    ensures forall a, b :: AnswerStatusValue(a) == AnswerStatusValue(b) ==> a == b
    ensures forall a, b :: ProjectStatusValue(a) == ProjectStatusValue(b) ==> a == b
    ensures forall a, b :: DocumentStatusValue(a) == DocumentStatusValue(b) ==> a == b
  {
  }

  // ---------------------------------------------------------------------------
  // Rows

  /** Creation and indexing instants; `datetime.utcnow()` is supplied by the caller. */
  type Timestamp = nat

  /** One source a generated answer points at. */
  datatype Citation = Citation(docId: string, docName: string, page: int, text: string, chunkId: string)

  datatype Project = Project(id: string, name: string, description: string, status: ProjectStatus)

  datatype Question = Question(
    id: string,
    projectId: string,
    section: string,
    questionText: string,
    orderIndex: int)

  datatype Answer = Answer(
    id: string,
    questionId: string,
    aiAnswer: string,
    variantA: string,
    variantB: string,
    manualAnswer: string,
    citations: seq<Citation>,
    confidence: real,
    answerable: Answerability,
    status: AnswerStatus)

  datatype Document = Document(
    id: string,
    filename: string,
    originalPath: string,
    status: DocumentStatus,
    pageCount: int,
    chunkCount: int,
    errorMessage: string,
    indexedAt: Option<Timestamp>)

  /** A project row as created with every defaulted column left at its default. */
  function NewProject(id: string, name: string, description: string): Project {
    Project(id, name, description, Draft)
  }

  /** An answer row with every column but the keys at its default. */
  function NewAnswer(id: string, questionId: string): Answer {
    Answer(id, questionId, "", "", "", "", [], 0.0, Unknown, Pending)
  }

  /** A document row with every column but the keys at its default. */
  function NewDocument(id: string, filename: string): Document {
    Document(id, filename, "", Waiting, 0, 0, "", None)
  }

  // ---------------------------------------------------------------------------
  // Tables

  datatype Db = Db(
    projects: seq<Project>,
    questions: seq<Question>,
    answers: seq<Answer>,
    documents: seq<Document>)

  /** `.first()`: the index of the first row satisfying `matches`, if any. */
  function FindFirst<T>(rows: seq<T>, matches: T -> bool): (r: Option<nat>)
    ensures r.Some? ==> r.value < |rows| && matches(rows[r.value])
    ensures r.Some? ==> forall k :: 0 <= k < r.value ==> !matches(rows[k])
    ensures r.None? <==> forall k :: 0 <= k < |rows| ==> !matches(rows[k])
  {
    if |rows| == 0 then None
    else if matches(rows[0]) then Some(0)
    else match FindFirst(rows[1..], matches)
      case None => None
      case Some(k) => Some(k + 1)
  }

  /** Overwriting the first matching row with another matching row keeps it first. */
  lemma FindFirstUpdate<T>(rows: seq<T>, matches: T -> bool, k: nat, x: T)
    requires FindFirst(rows, matches) == Some(k) && matches(x)
    ensures FindFirst(rows[k := x], matches) == Some(k)
  {
    var rows' := rows[k := x];
    assert forall i :: 0 <= i < k ==> rows'[i] == rows[i];
    assert rows'[k] == x;
  }

  /** The rows satisfying `keep`, in their original order. */
  function Filter<T(!new)>(rows: seq<T>, keep: T -> bool): (r: seq<T>)
    ensures |r| <= |rows|
    ensures forall x :: x in r <==> x in rows && keep(x)
  {
    if |rows| == 0 then []
    else if keep(rows[0]) then [rows[0]] + Filter(rows[1..], keep)
    else Filter(rows[1..], keep)
  }

  /** Filtering by `outer` what `inner` kept is filtering by `both` at once, when
      `both` holds exactly where the two do: the rows stay in table order. */
  lemma {:induction false} FilterFilter<T(!new)>(rows: seq<T>, inner: T -> bool, outer: T -> bool, both: T -> bool)
    requires forall x :: both(x) == (inner(x) && outer(x))
    ensures Filter(Filter(rows, inner), outer) == Filter(rows, both)
    decreases |rows|
  {
    if |rows| > 0 {
      FilterFilter(rows[1..], inner, outer, both);
      var tail := Filter(rows[1..], inner);
      if inner(rows[0]) {
        assert ([rows[0]] + tail)[0] == rows[0] && ([rows[0]] + tail)[1..] == tail;
      }
    }
  }

  /** `.first()` over the rows a filter kept finds the same row as over the whole
      table, when every matching row is kept. */
  lemma {:induction false} FindFirstFilter<T(!new)>(rows: seq<T>, keep: T -> bool, matches: T -> bool)
    requires forall x :: matches(x) ==> keep(x)
    ensures var f := FindFirst(Filter(rows, keep), matches);
      var g := FindFirst(rows, matches);
      && f.Some? == g.Some?
      && (f.Some? ==> Filter(rows, keep)[f.value] == rows[g.value])
    decreases |rows|
  {
    if |rows| > 0 {
      FindFirstFilter(rows[1..], keep, matches);
      var tail := Filter(rows[1..], keep);
      if keep(rows[0]) {
        var kept := [rows[0]] + tail;
        assert kept[0] == rows[0] && kept[1..] == tail;
      }
    }
  }

  lemma {:induction false} FilterAppend<T(!new)>(xs: seq<T>, ys: seq<T>, keep: T -> bool)
    ensures Filter(xs + ys, keep) == Filter(xs, keep) + Filter(ys, keep)
    decreases |xs|
  {
    if |xs| == 0 {
      assert xs + ys == ys;
    } else {
      var zs := xs + ys;
      assert zs[0] == xs[0] && zs[1..] == xs[1..] + ys;
      FilterAppend(xs[1..], ys, keep);
    }
  }

  lemma {:induction false} FilterNone<T(!new)>(xs: seq<T>, keep: T -> bool)
    requires forall x :: x in xs ==> !keep(x)
    ensures Filter(xs, keep) == []
    decreases |xs|
  {
    if |xs| > 0 {
      assert xs[0] in xs;
      assert forall x :: x in xs[1..] ==> x in xs;
      FilterNone(xs[1..], keep);
    }
  }

  lemma {:induction false} FilterAll<T(!new)>(xs: seq<T>, keep: T -> bool)
    requires forall x :: x in xs ==> keep(x)
    ensures Filter(xs, keep) == xs
    decreases |xs|
  {
    if |xs| > 0 {
      assert xs[0] in xs;
      assert forall x :: x in xs[1..] ==> x in xs;
      FilterAll(xs[1..], keep);
    }
  }

  /** `sum(1 for x in xs if p(x))` */
  function Count<T>(xs: seq<T>, p: T -> bool): (n: nat)
    ensures n <= |xs|
    decreases |xs|
  {
    if |xs| == 0 then 0 else (if p(xs[0]) then 1 else 0) + Count(xs[1..], p)
  }

  /** The count reaches the length exactly when every element satisfies `p`. */
  lemma {:induction false} CountAll<T>(xs: seq<T>, p: T -> bool)
    ensures Count(xs, p) == |xs| <==> forall i :: 0 <= i < |xs| ==> p(xs[i])
    decreases |xs|
  {
    if |xs| > 0 {
      CountAll(xs[1..], p);
      assert forall i :: 1 <= i < |xs| ==> xs[i] == xs[1..][i - 1];
    }
  }

  /** The count is zero exactly when no element satisfies `p`. */
  lemma {:induction false} CountNone<T>(xs: seq<T>, p: T -> bool)
    ensures Count(xs, p) == 0 <==> forall i :: 0 <= i < |xs| ==> !p(xs[i])
    decreases |xs|
  {
    if |xs| > 0 {
      CountNone(xs[1..], p);
      assert forall i :: 1 <= i < |xs| ==> xs[i] == xs[1..][i - 1];
    }
  }

  function FindProject(db: Db, id: string): Option<nat> {
    FindFirst(db.projects, (p: Project) => p.id == id)
  }

  function FindQuestion(db: Db, id: string): Option<nat> {
    FindFirst(db.questions, (q: Question) => q.id == id)
  }

  function FindAnswer(db: Db, id: string): Option<nat> {
    FindFirst(db.answers, (a: Answer) => a.id == id)
  }

  /** The row behind `question.answer`: the first answer recorded for the question. */
  function AnswerOf(db: Db, questionId: string): Option<Answer> {
    match FindFirst(db.answers, (a: Answer) => a.questionId == questionId)
    case None => None
    case Some(k) => Some(db.answers[k])
  }

  /** `project.questions`: the project's question rows in table order. */
  function QuestionsOf(db: Db, projectId: string): seq<Question> {
    Filter(db.questions, (q: Question) => q.projectId == projectId)
  }

  // ---------------------------------------------------------------------------
  // Store invariants

  /** No two rows of `rows` agree on `key`. */
  ghost predicate Distinct<T, K>(rows: seq<T>, key: T -> K) {
    forall i, j :: 0 <= i < j < |rows| ==> key(rows[i]) != key(rows[j])
  }

  /** Overwriting a row with one of the same key keeps the key distinct. */
  lemma DistinctUpdate<T, K>(rows: seq<T>, key: T -> K, k: nat, x: T)
    requires k < |rows| && Distinct(rows, key) && key(x) == key(rows[k])
    ensures Distinct(rows[k := x], key)
  {
    var rows' := rows[k := x];
    assert forall i :: 0 <= i < |rows| ==> key(rows'[i]) == key(rows[i]);
  }

  /** Two runs of distinct keys that share no key concatenate to distinct keys. */
  lemma DistinctAppend<T, K>(xs: seq<T>, ys: seq<T>, key: T -> K)
    requires Distinct(xs, key) && Distinct(ys, key)
    requires forall i, j :: 0 <= i < |xs| && 0 <= j < |ys| ==> key(xs[i]) != key(ys[j])
    ensures Distinct(xs + ys, key)
  {
    var all := xs + ys;
    forall i, j | 0 <= i < j < |all|
      ensures key(all[i]) != key(all[j])
    {
      if j < |xs| {
        assert all[i] == xs[i] && all[j] == xs[j];
      } else if i < |xs| {
        assert all[i] == xs[i] && all[j] == ys[j - |xs|];
      } else {
        assert all[i] == ys[i - |xs|] && all[j] == ys[j - |xs|];
      }
    }
  }

  /** Dropping rows keeps a key distinct. */
  lemma {:induction false} FilterDistinct<T(!new), K>(rows: seq<T>, keep: T -> bool, key: T -> K)
    requires Distinct(rows, key)
    ensures Distinct(Filter(rows, keep), key)
  {
    if |rows| > 0 {
      FilterDistinct(rows[1..], keep, key);
      if keep(rows[0]) {
        var tail := Filter(rows[1..], keep);
        forall j | 0 <= j < |tail|
          ensures key(rows[0]) != key(tail[j])
        {
          assert tail[j] in rows[1..];
          var k :| 0 <= k < |rows[1..]| && rows[1..][k] == tail[j];
          assert rows[k + 1] == tail[j];
        }
        assert Filter(rows, keep) == [rows[0]] + tail;
      }
    }
  }

  function ProjectKey(p: Project): string { p.id }
  function QuestionKey(q: Question): string { q.id }
  function AnswerKey(a: Answer): string { a.id }
  function DocumentKey(d: Document): string { d.id }
  function AnsweredQuestion(a: Answer): string { a.questionId }

  /** Primary keys are unique in every table. */
  ghost predicate UniqueIds(db: Db) {
    && Distinct(db.projects, ProjectKey)
    && Distinct(db.questions, QuestionKey)
    && Distinct(db.answers, AnswerKey)
    && Distinct(db.documents, DocumentKey)
  }

  /** The one-to-one `Question.answer` relationship: no two answer rows share a question. */
  ghost predicate OneAnswerPerQuestion(db: Db) {
    Distinct(db.answers, AnsweredQuestion)
  }

  function ProjectIds(db: Db): set<string> {
    set p | p in db.projects :: p.id
  }

  function QuestionIds(db: Db): set<string> {
    set q | q in db.questions :: q.id
  }

  /** The ids of the questions of one project. */
  function QuestionIdsOf(db: Db, projectId: string): set<string> {
    set q | q in db.questions && q.projectId == projectId :: q.id
  }

  /** Foreign keys resolve: every question belongs to a stored project and every
      answer to a stored question. */
  ghost predicate Owned(db: Db) {
    && (forall q :: q in db.questions ==> q.projectId in ProjectIds(db))
    && (forall a :: a in db.answers ==> a.questionId in QuestionIds(db))
  }

  ghost predicate Valid(db: Db) {
    UniqueIds(db) && OneAnswerPerQuestion(db) && Owned(db)
  }

  /** Rewriting the columns of one project row, keeping its id, keeps the store valid. */
  lemma ProjectRowUpdateValid(db: Db, k: nat, p: Project)
    requires Valid(db) && k < |db.projects| && p.id == db.projects[k].id
    ensures Valid(db.(projects := db.projects[k := p]))
  {
    var db' := db.(projects := db.projects[k := p]);
    DistinctUpdate(db.projects, ProjectKey, k, p);
    forall q | q in db'.questions ensures q.projectId in ProjectIds(db') {
      var r :| r in db.projects && r.id == q.projectId;
      var i :| 0 <= i < |db.projects| && db.projects[i] == r;
      assert db'.projects[i] in db'.projects;
    }
    assert QuestionIds(db') == QuestionIds(db);
  }

  /** With one answer per question, the answer found for a question is the only
      answer row that names it. */
  lemma AnswerOfUnique(db: Db, questionId: string, k: nat)
    requires OneAnswerPerQuestion(db)
    requires k < |db.answers| && db.answers[k].questionId == questionId
    ensures AnswerOf(db, questionId) == Some(db.answers[k])
  {
    var f := FindFirst(db.answers, (a: Answer) => a.questionId == questionId);
    assert f.Some?;
    assert f.value <= k;
  }

  /** Deleting a project through the ORM: the `all, delete-orphan` cascades remove
      the project row, every question of the project and the answer of every such
      question; documents are unaffected. */
  function DeleteProjectCascade(db: Db, projectId: string): (r: Db)
    ensures forall p :: p in r.projects <==> p in db.projects && p.id != projectId
    ensures forall q :: q in r.questions <==> q in db.questions && q.projectId != projectId
    ensures forall a :: a in r.answers <==>
      a in db.answers && a.questionId !in QuestionIdsOf(db, projectId)
    ensures r.documents == db.documents
  {
    var removed := QuestionIdsOf(db, projectId);
    Db(
      Filter(db.projects, (p: Project) => p.id != projectId),
      Filter(db.questions, (q: Question) => q.projectId != projectId),
      Filter(db.answers, (a: Answer) => a.questionId !in removed),
      db.documents)
  }

  /** A cascading delete keeps the store valid and leaves nothing that belonged to
      the project: no project row with its id, no question of it and no answer to
      one of its questions. */
  lemma DeleteProjectCascadeValid(db: Db, projectId: string)
    requires Valid(db)
    ensures Valid(DeleteProjectCascade(db, projectId))
    ensures forall p :: p in DeleteProjectCascade(db, projectId).projects ==> p.id != projectId
    ensures forall q :: q in DeleteProjectCascade(db, projectId).questions ==> q.projectId != projectId
    ensures forall a :: a in DeleteProjectCascade(db, projectId).answers ==>
      forall q :: q in db.questions && q.projectId == projectId ==> a.questionId != q.id
  {
    var removed := QuestionIdsOf(db, projectId);
    FilterDistinct(db.projects, (p: Project) => p.id != projectId, ProjectKey);
    FilterDistinct(db.questions, (q: Question) => q.projectId != projectId, QuestionKey);
    FilterDistinct(db.answers, (a: Answer) => a.questionId !in removed, AnswerKey);
    FilterDistinct(db.answers, (a: Answer) => a.questionId !in removed, AnsweredQuestion);
    var r := DeleteProjectCascade(db, projectId);
    forall q | q in r.questions
      ensures q.projectId in ProjectIds(r)
    {
      var p :| p in db.projects && p.id == q.projectId;
      assert p in r.projects;
    }
    forall a | a in r.answers
      ensures a.questionId in QuestionIds(r)
    {
      var q :| q in db.questions && q.id == a.questionId;
      assert q.projectId != projectId;
      assert q in r.questions;
    }
  }

  /** A cascading delete leaves every other project as it was: its questions, in
      table order, and the answer of each of them. */
  lemma DeleteProjectKeepsOthers(db: Db, projectId: string, other: string)
    requires Distinct(db.questions, QuestionKey) && other != projectId
    ensures var r := DeleteProjectCascade(db, projectId);
      && QuestionsOf(r, other) == QuestionsOf(db, other)
      && forall q :: q in QuestionsOf(db, other) ==> AnswerOf(r, q.id) == AnswerOf(db, q.id)
  {
    var removed := QuestionIdsOf(db, projectId);
    FilterFilter(db.questions, (q: Question) => q.projectId != projectId,
      (q: Question) => q.projectId == other, (q: Question) => q.projectId == other);
    forall q | q in QuestionsOf(db, other)
      ensures AnswerOf(DeleteProjectCascade(db, projectId), q.id) == AnswerOf(db, q.id)
    {
      FindFirstFilter(db.answers, (a: Answer) => a.questionId !in removed, (a: Answer) => a.questionId == q.id);
    }
  }
}
