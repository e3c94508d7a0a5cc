/**
 The quiz-completion route (`POST /api/quiz-attempts`) as one pure step.

 The parsed request body (or the exception parsing it threw), the
 `member_id` cookie, the documents the CMS returns and the clock are
 parameters; the result is the response the route sends, carrying the
 member document as written when the quiz is credited. The route grades
 nothing: a quiz counts as completed when one answer is supplied per
 question, and the reward is the quiz's points.
 */
module QuizAttempts {
  import opened JsValues
  import opened Members

  /** A question of a quiz; the route only ever counts them. */
  datatype Question = Question(prompt: string)

  datatype Quiz = Quiz(id: string, questions: Option<seq<Question>>, points: Option<int>)

  /** What a CMS lookup gave back: the document, nothing, or an exception
      with its message. */
  datatype Fetch<T> = Found(doc: T) | Absent | Threw(message: string)

  /** The fields of the JSON request body, `undefined` when absent. */
  datatype Body = Body(quizId: Value, answers: Value, blogId: Value)

  /** Everything the route reads from or writes to the CMS: the quiz looked
      up by `quizId`, the member looked up by the cookie's id (as a read with
      depth returns it), and whether writing the member update raised an
      exception. Obtaining the CMS client happens right before the quiz
      lookup, so its exception is modelled as `quiz == Threw(message)`. */
  datatype Store = Store(quiz: Fetch<Quiz>, member: Fetch<Member>, updateError: Option<string>)

  datatype Outcome =
    | Unauthorized                                          // 401
    | BadRequest(error: string)                             // 400
    | NotFound(error: string)                               // 404
    | AlreadyCompleted(score: int, total: nat, pointsEarned: int)  // 409
    | Completed(score: int, total: nat, pointsEarned: int, member: Member)  // 200
    | ServerError(error: string)                            // 500

  const InvalidQuizIdError := "Invalid quiz ID"
  const InvalidAnswersError := "Invalid answers format"
  const QuizNotFoundError := "Quiz not found"
  const AnswerCountError := "All questions must be answered"
  const MemberNotFoundError := "Member not found"
  const InternalError := "Internal server error"

  /** The reward when a quiz carries no points, or zero points. */
  const DefaultPoints := 10

  function Status(o: Outcome): int {
    match o
    case Unauthorized => 401
    case BadRequest(_) => 400
    case NotFound(_) => 404
    case AlreadyCompleted(_, _, _) => 409
    case Completed(_, _, _, _) => 200
    case ServerError(_) => 500
  }

  /** `!memberId` fails for a missing cookie and for an empty one. */
  predicate Authenticated(memberId: Option<string>) {
    memberId.Some? && memberId.value != ""
  }

  /** `!quizId || typeof quizId !== 'string'` fails unless the id is a non-empty string. */
  predicate ValidQuizId(v: Value) {
    v.Str? && v.s != ""
  }

  /** `error.message || 'Internal server error'`. */
  function ErrorMessage(message: string): string {
    if message != "" then message else InternalError
  }

  /** `quiz.points || 10`. */
  function PointsFor(quiz: Quiz): (p: int)
    ensures p != 0
  {
    match quiz.points
    case Some(n) => if n != 0 then n else DefaultPoints
    case None => DefaultPoints
  }

  /** `records.find(attempt => attempt.quizId === q)`: the first record for `q`. */
  function FindAttempt(rs: seq<QuizRecord>, q: string): (r: Option<QuizRecord>)
    ensures r.None? <==> forall i :: 0 <= i < |rs| ==> rs[i].quizId != q
    ensures r.Some? ==> exists i :: 0 <= i < |rs| && rs[i] == r.value && rs[i].quizId == q
                          && forall j :: 0 <= j < i ==> rs[j].quizId != q
  {
    if |rs| == 0 then None
    else if rs[0].quizId == q then Some(rs[0])
    else
      var r := FindAttempt(rs[1..], q);
      if r.Some? then
        var i :| 0 <= i < |rs[1..]| && rs[1..][i] == r.value && rs[1..][i].quizId == q
                 && forall j :: 0 <= j < i ==> rs[1..][j].quizId != q;
        assert rs[i + 1] == r.value;
        r
      else r
  }

  /** `item.blog?.id`: the id of a populated blog reference, `undefined` otherwise. */
  function BlogKey(r: BlogRecord): Value {
    OptionalGet(r.blog, "id")
  }

  /** `completedBlogs.some(item => item.blog?.id === blogId)`. */
  predicate BlogListed(blogs: seq<BlogRecord>, blogId: Value) {
    exists i :: 0 <= i < |blogs| && StrictEquals(BlogKey(blogs[i]), blogId)
  }

  /** The `completedBlogs` value written on a first completion: kept as it is
      when a record already names the blog, otherwise the old records (none
      when missing) followed by one record for the blog. */
  function BlogHistoryAfter(blogs: Option<seq<BlogRecord>>, blogId: Value, points: int, now: Time)
    : Option<seq<BlogRecord>>
  {
    if blogs.Some? && BlogListed(blogs.value, blogId) then blogs
    else Some(blogs.GetOr([]) + [BlogRecord(blogId, points, now)])
  }

  /** The `completedQuizIds` value written on a first completion: the old
      records without any for quiz `q`, then one added record for `q`. */
  function QuizHistoryAfter(rs: seq<QuizRecord>, q: string, points: int, now: Time)
    : (r: seq<QuizRecord>)
    ensures CountQuiz(r, q) == 1
    ensures WithoutQuiz(r, q) == WithoutQuiz(rs, q)
    ensures |r| == |rs| - CountQuiz(rs, q) + 1
    ensures QuizIdsDistinct(rs) ==> QuizIdsDistinct(r)
  {
    var kept := WithoutQuiz(rs, q);
    var added := QuizRecord(q, points, now);
    CountQuizAppend(kept, [added], q);
    WithoutQuizAppend(kept, [added], q);
    assert WithoutQuiz([added], q) == [];
    assert WithoutQuiz(kept, q) == kept by {
      WithoutAbsentQuiz(kept, q);
    }
    if QuizIdsDistinct(rs) then
      assert QuizIdsDistinct(kept + [added]) by {
        WithoutQuizKeepsDistinct(rs, q);
        forall i, j | 0 <= i < j < |kept + [added]|
          ensures (kept + [added])[i].quizId != (kept + [added])[j].quizId
        {
          if j == |kept| {
            assert (kept + [added])[i] == kept[i];
          } else {
            assert (kept + [added])[i] == kept[i] && (kept + [added])[j] == kept[j];
          }
        }
      }
      kept + [added]
    else
      kept + [added]
  }

  /** The member update of a first completion: the wallet credited, the blog
      and quiz histories extended; every other field as it was. */
  function Credit(m: Member, q: string, blogId: Value, points: int, now: Time): Member {
    m.(wallet := Some(WalletOrZero(m) + points),
       completedBlogs := BlogHistoryAfter(m.completedBlogs, blogId, points, now),
       completedQuizIds := Some(QuizHistoryAfter(QuizHistory(m), q, points, now)))
  }

  /** The guard chain of the route up to and including the member lookup:
      everything that must hold before the duplicate check is reached. */
  predicate Accepted(memberId: Option<string>, body: Body, store: Store) {
    && Authenticated(memberId)
    && ValidQuizId(body.quizId)
    && body.answers.Arr?
    && store.quiz.Found?
    && store.quiz.doc.questions.Some?
    && |body.answers.elems| == |store.quiz.doc.questions.value|
    && store.member.Found?
  }

  /** The route once the request body has been parsed into its three fields. */
  function Submit(memberId: Option<string>, body: Body, store: Store, now: Time): Outcome {
    if !Authenticated(memberId) then Unauthorized
    else if !ValidQuizId(body.quizId) then BadRequest(InvalidQuizIdError)
    else if !body.answers.Arr? then BadRequest(InvalidAnswersError)
    else
      match store.quiz
      case Threw(message) => ServerError(ErrorMessage(message))
      case Absent => NotFound(QuizNotFoundError)
      case Found(quiz) =>
        if quiz.questions.None? then NotFound(QuizNotFoundError)
        else if |body.answers.elems| != |quiz.questions.value| then BadRequest(AnswerCountError)
        else
          match store.member
          case Threw(message) => ServerError(ErrorMessage(message))
          case Absent => NotFound(MemberNotFoundError)
          case Found(m) =>
            var q := body.quizId.s;
            var total := |quiz.questions.value|;
            match FindAttempt(QuizHistory(m), q)
            case Some(previous) => AlreadyCompleted(previous.score, total, 0)
            case None =>
              var points := PointsFor(quiz);
              match store.updateError
              case Some(message) => ServerError(ErrorMessage(message))
              case None => Completed(total, total, points, Credit(m, q, body.blogId, points, now))
  }

  /** One request to the route. The body is parsed before the cookie is
      read, inside the same `try`: a body that is not JSON, or is JSON
      `null` (which cannot be destructured), is answered 500 whatever the
      cookie says. Any other JSON value destructures, its missing fields
      reading as `undefined`. */
  function Handle(memberId: Option<string>, request: Try<Body>, store: Store, now: Time): Outcome {
    match request
    case Raised(message) => ServerError(ErrorMessage(message))
    case Returned(body) => Submit(memberId, body, store, now)
  }

  /** A parsed request without a usable `member_id` cookie is refused with
      401 whatever its body holds, and nothing else is ever answered with
      401; an unparsable body is never answered 401. */
  lemma UnauthorizedIff(memberId: Option<string>, request: Try<Body>, store: Store, now: Time)
    ensures Handle(memberId, request, store, now) == Unauthorized <==>
      request.Returned? && !Authenticated(memberId)
  {
  }

  /** The three 400 answers and the order they are checked in: quiz id first,
      then the answers' shape, then (once the quiz is loaded) their count. */
  lemma BadRequestOrder(memberId: Option<string>, body: Body, store: Store, now: Time)
    ensures var r := Submit(memberId, body, store, now);
      && (r == BadRequest(InvalidQuizIdError) <==> Authenticated(memberId) && !ValidQuizId(body.quizId))
      && (r == BadRequest(InvalidAnswersError) <==>
            Authenticated(memberId) && ValidQuizId(body.quizId) && !body.answers.Arr?)
      && (r == BadRequest(AnswerCountError) <==>
            && Authenticated(memberId) && ValidQuizId(body.quizId) && body.answers.Arr?
            && store.quiz.Found? && store.quiz.doc.questions.Some?
            && |body.answers.elems| != |store.quiz.doc.questions.value|)
  {
  }

  /** A 404 for the quiz means the quiz or its question list is missing; an
      empty question list is not missing. */
  lemma QuizNotFoundIff(memberId: Option<string>, body: Body, store: Store, now: Time)
    ensures Submit(memberId, body, store, now) == NotFound(QuizNotFoundError) <==>
      && Authenticated(memberId) && ValidQuizId(body.quizId) && body.answers.Arr?
      && (store.quiz.Absent? || (store.quiz.Found? && store.quiz.doc.questions.None?))
  {
  }

  /** A 404 for the member means every earlier guard passed and the member
      lookup found nothing. */
  lemma MemberNotFoundIff(memberId: Option<string>, body: Body, store: Store, now: Time)
    ensures Submit(memberId, body, store, now) == NotFound(MemberNotFoundError) <==>
      && Authenticated(memberId) && ValidQuizId(body.quizId) && body.answers.Arr?
      && store.quiz.Found? && store.quiz.doc.questions.Some?
      && |body.answers.elems| == |store.quiz.doc.questions.value|
      && store.member.Absent?
  {
  }

  /** The route answers 500 exactly when something it awaits throws: parsing
      the body (checked first, before the cookie), then, once the guards
      pass, obtaining the CMS client or looking up the quiz, the member
      lookup, or the update of a first completion. The error is the
      exception's message, or a fixed text when that is empty, so it is
      never empty. */
  lemma ServerErrorIff(memberId: Option<string>, request: Try<Body>, store: Store, now: Time)
    ensures var r := Handle(memberId, request, store, now);
      && (r.ServerError? <==>
            || request.Raised?
            || (var body := request.value;
                && Authenticated(memberId) && ValidQuizId(body.quizId) && body.answers.Arr?
                && (|| store.quiz.Threw?
                    || (&& store.quiz.Found? && store.quiz.doc.questions.Some?
                        && |body.answers.elems| == |store.quiz.doc.questions.value|
                        && (|| store.member.Threw?
                            || (store.member.Found? && !HasRecord(store.member.doc, body.quizId.s)
                                && store.updateError.Some?))))))
      && (r.ServerError? ==> r.error != "")
      && (request.Raised? && request.message != "" ==> r.error == request.message)
      && (request.Returned? && r.ServerError? && store.quiz.Threw? && store.quiz.message != "" ==>
            r.error == store.quiz.message)
  {
    if request.Returned? && Accepted(memberId, request.value, store) {
      DuplicateIff(memberId, request.value, store, now);
    }
  }

  /** Only the number of answers matters, never what they say. */
  lemma AnswerContentsIgnored(memberId: Option<string>, body: Body, answers': seq<Value>,
                              store: Store, now: Time)
    requires body.answers.Arr? && |answers'| == |body.answers.elems|
    ensures Submit(memberId, body.(answers := Arr(answers')), store, now)
         == Submit(memberId, body, store, now)
  {
  }

  /** A repeat submission is answered 409 with the score of the first stored
      record for the quiz, no points, and the quiz's question count; no
      member update is produced. */
  lemma DuplicateIff(memberId: Option<string>, body: Body, store: Store, now: Time)
    requires Accepted(memberId, body, store)
    ensures var r := Submit(memberId, body, store, now);
      && (r.AlreadyCompleted? <==> HasRecord(store.member.doc, body.quizId.s))
      && (r.AlreadyCompleted? ==>
            && r.pointsEarned == 0
            && r.total == |store.quiz.doc.questions.value|
            && exists i :: 0 <= i < |QuizHistory(store.member.doc)|
                 && QuizHistory(store.member.doc)[i].quizId == body.quizId.s
                 && r.score == QuizHistory(store.member.doc)[i].score
                 && forall j :: 0 <= j < i ==> QuizHistory(store.member.doc)[j].quizId != body.quizId.s)
  {
  }

  /** A quiz is credited exactly when every guard passes, the member has no
      record for it yet, and the update is written. */
  lemma CompletedIff(memberId: Option<string>, body: Body, store: Store, now: Time)
    ensures Submit(memberId, body, store, now).Completed? <==>
      && Accepted(memberId, body, store)
      && !HasRecord(store.member.doc, body.quizId.s)
      && store.updateError.None?
  {
  }

  /** What a credited submission reports and writes: score and total are the
      question count; the points are the quiz's, or 10 when it has none or
      zero; the wallet grows by exactly those points; the quiz history gains
      exactly one record, at the end; the blog history gains one record only
      when no record names the blog yet; nothing else about the member
      changes. */
  lemma CompletedEffect(memberId: Option<string>, body: Body, store: Store, now: Time)
    requires Submit(memberId, body, store, now).Completed?
    ensures var r := Submit(memberId, body, store, now);
      var quiz := store.quiz.doc;
      var m := store.member.doc;
      var q := body.quizId.s;
      && r.score == r.total == |quiz.questions.value|
      && (quiz.points.Some? && quiz.points.value != 0 ==> r.pointsEarned == quiz.points.value)
      && (quiz.points.None? || quiz.points == Some(0) ==> r.pointsEarned == DefaultPoints)
      && WalletOrZero(r.member) == WalletOrZero(m) + r.pointsEarned
      && QuizHistory(r.member) == QuizHistory(m) + [QuizRecord(q, r.pointsEarned, now)]
      && CountQuiz(QuizHistory(r.member), q) == 1
      && (m.completedBlogs.Some? && BlogListed(m.completedBlogs.value, body.blogId) ==>
            r.member.completedBlogs == m.completedBlogs)
      && (!(m.completedBlogs.Some? && BlogListed(m.completedBlogs.value, body.blogId)) ==>
            r.member.completedBlogs
              == Some(m.completedBlogs.GetOr([]) + [BlogRecord(body.blogId, r.pointsEarned, now)]))
      && r.member.(wallet := m.wallet, completedBlogs := m.completedBlogs,
                   completedQuizIds := m.completedQuizIds) == m
  {
    var m := store.member.doc;
    var q := body.quizId.s;
    WithoutAbsentQuiz(QuizHistory(m), q);
  }

  /** The member document as written keeps at most one record per quiz when
      it did so before. */
  lemma CreditKeepsQuizIdsDistinct(memberId: Option<string>, body: Body, store: Store, now: Time)
    requires Submit(memberId, body, store, now).Completed?
    requires QuizIdsDistinct(QuizHistory(store.member.doc))
    ensures QuizIdsDistinct(QuizHistory(Submit(memberId, body, store, now).member))
  {
  }

  /** Submitting the same quiz again, against any later read of the member
      whose quiz history is the one the first submission wrote (a read with
      depth included), earns nothing: the answer is 409 with the points of
      the first credit as its score. */
  lemma ResubmitIsDuplicate(memberId: Option<string>, body: Body, store: Store, now: Time,
                            store': Store, now': Time)
    requires Submit(memberId, body, store, now).Completed?
    requires store'.quiz == store.quiz
    requires store'.member.Found?
    requires QuizHistory(store'.member.doc) == QuizHistory(Submit(memberId, body, store, now).member)
    ensures var first := Submit(memberId, body, store, now);
      Submit(memberId, body, store', now') == AlreadyCompleted(first.pointsEarned, first.total, 0)
  {
    var first := Submit(memberId, body, store, now);
    var m := store.member.doc;
    var q := body.quizId.s;
    var added := QuizRecord(q, first.pointsEarned, now);
    CompletedEffect(memberId, body, store, now);
    assert FindAttempt(QuizHistory(m), q).None?;
    FindAppended(QuizHistory(m), added, q);
    assert FindAttempt(QuizHistory(first.member), q) == Some(added);
  }

  /** A record appended to a history without that quiz is the one found. */
  lemma FindAppended(rs: seq<QuizRecord>, x: QuizRecord, q: string)
    requires forall i :: 0 <= i < |rs| ==> rs[i].quizId != q
    requires x.quizId == q
    ensures FindAttempt(rs + [x], q) == Some(x)
  {
    var ys := rs + [x];
    assert ys[|rs|] == x;
    assert forall j :: 0 <= j < |rs| ==> ys[j] == rs[j];
    var r := FindAttempt(ys, q);
    var i :| 0 <= i < |ys| && ys[i] == r.value && ys[i].quizId == q
             && forall j :: 0 <= j < i ==> ys[j].quizId != q;
    assert i == |rs|;
  }

  /** One request of a member's session: the body, the quiz the CMS returns
      for it, whether writing the update fails, and the clock. */
  datatype Attempt = Attempt(body: Body, quiz: Fetch<Quiz>, updateError: Option<string>, now: Time)

  /** The store a request from the member stored as `m` sees: the member
      read back with depth, so blog references are populated. */
  function StoreFor(m: Member, a: Attempt): Store {
    Store(a.quiz, Found(Populate(m)), a.updateError)
  }

  /** The route's answer to one request from the member stored as `m`. */
  function Answer(m: Member, a: Attempt): Outcome {
    Submit(Some(m.id), a.body, StoreFor(m, a), a.now)
  }

  /** The stored member document after one request: the written update when
      the quiz is credited, the unchanged document otherwise. */
  function Step(m: Member, a: Attempt): Member {
    var r := Answer(m, a);
    if r.Completed? then r.member else m
  }

  /** The member document after the requests run one after another. */
  function Replay(m: Member, attempts: seq<Attempt>): Member
    decreases |attempts|
  {
    if |attempts| == 0 then m else Replay(Step(m, attempts[0]), attempts[1..])
  }

  /** How many of the requests credit quiz `q`. */
  function Credits(m: Member, attempts: seq<Attempt>, q: string): nat
    decreases |attempts|
  {
    if |attempts| == 0 then 0
    else
      var r := Answer(m, attempts[0]);
      (if r.Completed? && attempts[0].body.quizId == Str(q) then 1 else 0)
        + Credits(Step(m, attempts[0]), attempts[1..], q)
  }

  /** The points the requests earn in total. */
  function Earned(m: Member, attempts: seq<Attempt>): int
    decreases |attempts|
  {
    if |attempts| == 0 then 0
    else
      var r := Answer(m, attempts[0]);
      (if r.Completed? then r.pointsEarned else 0) + Earned(Step(m, attempts[0]), attempts[1..])
  }

  /** A completion record, once present, survives every later request, and
      a credited quiz leaves a record behind. */
  lemma StepKeepsRecords(m: Member, a: Attempt, q: string)
    ensures HasRecord(m, q) ==> HasRecord(Step(m, a), q)
    ensures Answer(m, a).Completed? && a.body.quizId == Str(q) ==> HasRecord(Step(m, a), q)
  {
    var store := StoreFor(m, a);
    if Answer(m, a).Completed? {
      CompletedEffect(Some(m.id), a.body, store, a.now);
      var h := QuizHistory(m);
      var h' := QuizHistory(Step(m, a));
      assert h' == h + [QuizRecord(a.body.quizId.s, Answer(m, a).pointsEarned, a.now)];
      if HasRecord(m, q) {
        var i :| 0 <= i < |h| && h[i].quizId == q;
        assert h'[i] == h[i];
      }
      if a.body.quizId == Str(q) {
        assert h'[|h|].quizId == q;
      }
    }
  }

  /** However many requests a member sends, each quiz is credited at most
      once, and never again once a record for it exists. */
  lemma {:induction false} CreditedAtMostOnce(m: Member, attempts: seq<Attempt>, q: string)
    ensures Credits(m, attempts, q) <= 1
    ensures HasRecord(m, q) ==> Credits(m, attempts, q) == 0
    decreases |attempts|
  {
    if |attempts| > 0 {
      var a := attempts[0];
      var credited := Answer(m, a).Completed? && a.body.quizId == Str(q);
      assert Credits(m, attempts, q) == (if credited then 1 else 0) + Credits(Step(m, a), attempts[1..], q);
      StepKeepsRecords(m, a, q);
      CreditedAtMostOnce(Step(m, a), attempts[1..], q);
      if HasRecord(m, q) && a.body.quizId == Str(q) {
        NoCreditWhenRecorded(m, a, q);
      }
    }
  }

  lemma NoCreditWhenRecorded(m: Member, a: Attempt, q: string)
    requires HasRecord(m, q) && a.body.quizId == Str(q)
    ensures !Answer(m, a).Completed?
  {
    CompletedIff(Some(m.id), a.body, StoreFor(m, a), a.now);
  }

  /** The wallet after a run of requests is the starting wallet plus exactly
      the points the credited requests report. */
  lemma {:induction false} WalletLedger(m: Member, attempts: seq<Attempt>)
    ensures WalletOrZero(Replay(m, attempts)) == WalletOrZero(m) + Earned(m, attempts)
    decreases |attempts|
  {
    if |attempts| > 0 {
      var a := attempts[0];
      if Answer(m, a).Completed? {
        CompletedEffect(Some(m.id), a.body, StoreFor(m, a), a.now);
      }
      WalletLedger(Step(m, a), attempts[1..]);
    }
  }

  /** Whether a stored blog record, once read back with depth, passes the
      route's `item.blog?.id === v` test. */
  predicate Names(r: BlogRecord, v: Value) {
    StrictEquals(BlogKey(PopulateRecord(r)), v)
  }

  /** How many stored blog records name blog `v`. */
  function BlogCount(rs: seq<BlogRecord>, v: Value): nat
    decreases |rs|
  {
    if |rs| == 0 then 0
    else BlogCount(rs[..|rs| - 1], v) + (if Names(rs[|rs| - 1], v) then 1 else 0)
  }

  function StoredBlogCount(m: Member, v: Value): nat {
    BlogCount(m.completedBlogs.GetOr([]), v)
  }

  lemma {:induction false} BlogCountNamed(rs: seq<BlogRecord>, v: Value)
    ensures BlogCount(rs, v) > 0 <==> exists i :: 0 <= i < |rs| && Names(rs[i], v)
    decreases |rs|
  {
    if |rs| > 0 {
      var init := rs[..|rs| - 1];
      BlogCountNamed(init, v);
      if exists i :: 0 <= i < |init| && Names(init[i], v) {
        var i :| 0 <= i < |init| && Names(init[i], v);
        assert rs[i] == init[i];
      }
      if exists i :: 0 <= i < |rs| && Names(rs[i], v) {
        var i :| 0 <= i < |rs| && Names(rs[i], v);
        if i < |init| {
          assert init[i] == rs[i];
        }
      }
    }
  }

  /** Reading records back with depth does not change which blog they name. */
  lemma {:induction false} BlogCountPopulated(rs: seq<BlogRecord>, v: Value)
    ensures BlogCount(PopulateAll(rs), v) == BlogCount(rs, v)
    decreases |rs|
  {
    if |rs| > 0 {
      var p := PopulateAll(rs);
      assert p[..|p| - 1] == PopulateAll(rs[..|rs| - 1]);
      BlogCountPopulated(rs[..|rs| - 1], v);
      assert PopulateRecord(PopulateRecord(rs[|rs| - 1])) == PopulateRecord(rs[|rs| - 1]);
    }
  }

  /** A request whose blog id is a document id adds a record naming a blog
      only when no stored record names it yet. */
  lemma BlogStep(m: Member, a: Attempt, v: Value)
    requires IsDocId(a.body.blogId)
    ensures var n := StoredBlogCount(m, v);
      StoredBlogCount(Step(m, a), v) <= if n == 0 then 1 else n
  {
    var r := Answer(m, a);
    if r.Completed? {
      var read := Populate(m);
      var rs := m.completedBlogs.GetOr([]);
      var prs := read.completedBlogs.GetOr([]);
      assert prs == PopulateAll(rs);
      BlogCountPopulated(rs, v);
      CompletedEffect(Some(m.id), a.body, StoreFor(m, a), a.now);
      var x := BlogRecord(a.body.blogId, r.pointsEarned, a.now);
      if Names(x, v) && BlogCount(prs, v) > 0 {
        NamedIsListed(rs, x, v);
      }
      if !(read.completedBlogs.Some? && BlogListed(prs, a.body.blogId)) {
        var after := prs + [x];
        assert after[..|after| - 1] == prs;
        assert StoredBlogCount(Step(m, a), v) == BlogCount(prs, v) + (if Names(x, v) then 1 else 0);
      }
    }
  }

  /** When a new record for a document id names `v` and a stored record
      already does, the route's duplicate test finds the stored one. */
  lemma NamedIsListed(rs: seq<BlogRecord>, x: BlogRecord, v: Value)
    requires IsDocId(x.blog) && Names(x, v)
    requires BlogCount(PopulateAll(rs), v) > 0
    ensures BlogListed(PopulateAll(rs), x.blog)
  {
    var prs := PopulateAll(rs);
    BlogCountNamed(prs, v);
    var i :| 0 <= i < |prs| && Names(prs[i], v);
    assert PopulateRecord(prs[i]) == prs[i];
    assert StrictEquals(BlogKey(prs[i]), v);
    assert StrictEquals(x.blog, v);
  }

  /** However many requests a member sends, with blog ids that are document
      ids, a blog gains a completion record only while none names it: no
      blog ends up with more records than it started with, or one when it
      had none. */
  lemma {:induction false} BlogRecordedAtMostOnce(m: Member, attempts: seq<Attempt>, v: Value)
    requires forall k :: 0 <= k < |attempts| ==> IsDocId(attempts[k].body.blogId)
    ensures var n := StoredBlogCount(m, v);
      StoredBlogCount(Replay(m, attempts), v) <= if n == 0 then 1 else n
    decreases |attempts|
  {
    if |attempts| > 0 {
      BlogStep(m, attempts[0], v);
      BlogRecordedAtMostOnce(Step(m, attempts[0]), attempts[1..], v);
    }
  }
}
