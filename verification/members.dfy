/**
 The member document of the `members` collection, reduced to the fields the
 quiz-completion, quiz-listing and email-verification routes read or write.
 Both the quiz route and the verification route update it; each must leave
 the other's fields alone.
 */
module Members {
  import opened JsValues

  /** An instant, in milliseconds since the epoch. The routes write it as an
      ISO-8601 string; that formatting is not modelled. */
  type Time = int

  /** One element of `completedQuizIds`. */
  datatype QuizRecord = QuizRecord(quizId: string, score: int, completedAt: Time)

  /** One element of `completedBlogs`. `blog` is the relationship as stored:
      a populated blog document (an object with an `id`) when the member was
      read with depth, or the raw value a route wrote into it. */
  datatype BlogRecord = BlogRecord(blog: Value, score: int, completedAt: Time)

  datatype Member = Member(
    id: string,
    email: string,
    emailVerified: bool,
    verificationToken: Option<string>,
    verificationTokenExpiry: Option<Time>,
    wallet: Option<int>,
    completedQuizIds: Option<seq<QuizRecord>>,
    completedBlogs: Option<seq<BlogRecord>>)

  /** Whether a stored relationship value is a document id (a string, or a
      number on a database with numeric ids) that a read with depth replaces
      by the document it names. */
  predicate IsDocId(v: Value) {
    v.Str? || v.Num?
  }

  /** A blog record as a read with depth returns it: a stored id becomes the
      blog document, of which this model keeps only the `id`; a populated or
      non-id value comes back as stored. */
  function PopulateRecord(r: BlogRecord): BlogRecord {
    if IsDocId(r.blog) then r.(blog := Obj([("id", r.blog)])) else r
  }

  function PopulateAll(rs: seq<BlogRecord>): (r: seq<BlogRecord>)
    ensures |r| == |rs|
    ensures forall i :: 0 <= i < |rs| ==> r[i] == PopulateRecord(rs[i])
  {
    if |rs| == 0 then [] else [PopulateRecord(rs[0])] + PopulateAll(rs[1..])
  }

  /** The member document as `findByID` with `depth: 2` returns it: blog
      references populated, every other field as stored. */
  function Populate(m: Member): Member {
    match m.completedBlogs
    case None => m
    case Some(rs) => m.(completedBlogs := Some(PopulateAll(rs)))
  }

  /** `member.wallet || 0`: a missing wallet counts as zero. */
  function WalletOrZero(m: Member): int {
    m.wallet.GetOr(0)
  }

  /** `member.completedQuizIds || []`. */
  function QuizHistory(m: Member): seq<QuizRecord> {
    m.completedQuizIds.GetOr([])
  }

  /** Whether the member holds a completion record for quiz `q`. */
  predicate HasRecord(m: Member, q: string) {
    exists i :: 0 <= i < |QuizHistory(m)| && QuizHistory(m)[i].quizId == q
  }

  /** The number of records for quiz `q` in a quiz history. */
  function CountQuiz(rs: seq<QuizRecord>, q: string): (n: nat)
    ensures n <= |rs|
    ensures n == 0 <==> forall i :: 0 <= i < |rs| ==> rs[i].quizId != q
  {
    if |rs| == 0 then 0
    else (if rs[0].quizId == q then 1 else 0) + CountQuiz(rs[1..], q)
  }

  /** The invariant the quiz route keeps: at most one completion
      record per quiz. */
  predicate QuizIdsDistinct(rs: seq<QuizRecord>) {
    forall i, j :: 0 <= i < j < |rs| ==> rs[i].quizId != rs[j].quizId
  }

  /** `rs.filter(item => item.quizId !== q)`. */
  function WithoutQuiz(rs: seq<QuizRecord>, q: string): (r: seq<QuizRecord>)
    ensures |r| == |rs| - CountQuiz(rs, q)
    ensures forall i :: 0 <= i < |r| ==> r[i].quizId != q
    ensures forall x :: x in r <==> x in rs && x.quizId != q
  {
    if |rs| == 0 then []
    else if rs[0].quizId == q then WithoutQuiz(rs[1..], q)
    else [rs[0]] + WithoutQuiz(rs[1..], q)
  }

  lemma CountQuizAppend(a: seq<QuizRecord>, b: seq<QuizRecord>, q: string)
    ensures CountQuiz(a + b, q) == CountQuiz(a, q) + CountQuiz(b, q)
  {
    if |a| > 0 {
      assert (a + b)[1..] == a[1..] + b;
      CountQuizAppend(a[1..], b, q);
    } else {
      assert a + b == b;
    }
  }

  lemma WithoutQuizAppend(a: seq<QuizRecord>, b: seq<QuizRecord>, q: string)
    ensures WithoutQuiz(a + b, q) == WithoutQuiz(a, q) + WithoutQuiz(b, q)
  {
    if |a| > 0 {
      assert (a + b)[0] == a[0];
      assert (a + b)[1..] == a[1..] + b;
      WithoutQuizAppend(a[1..], b, q);
      if a[0].quizId != q {
        var x, y := WithoutQuiz(a[1..], q), WithoutQuiz(b, q);
        assert [a[0]] + (x + y) == ([a[0]] + x) + y;
      }
    } else {
      assert a + b == b;
    }
  }

  /** Filtering a history keeps it free of repeated quiz ids. */
  lemma {:induction false} WithoutQuizKeepsDistinct(rs: seq<QuizRecord>, q: string)
    requires QuizIdsDistinct(rs)
    ensures QuizIdsDistinct(WithoutQuiz(rs, q))
  {
    if |rs| > 0 {
      var tail := rs[1..];
      var t := WithoutQuiz(tail, q);
      assert QuizIdsDistinct(tail) by {
        forall i, j | 0 <= i < j < |tail| ensures tail[i].quizId != tail[j].quizId {
          assert tail[i] == rs[i + 1] && tail[j] == rs[j + 1];
        }
      }
      WithoutQuizKeepsDistinct(tail, q);
      if rs[0].quizId != q {
        forall k | 0 <= k < |t| ensures t[k].quizId != rs[0].quizId {
          assert t[k] in tail;
          var b :| 0 <= b < |tail| && tail[b] == t[k];
          assert rs[b + 1] == t[k];
        }
        ConsDistinct(rs[0], t);
      }
    }
  }

  /** A record whose quiz the rest lacks keeps a distinct history distinct. */
  lemma ConsDistinct(x: QuizRecord, t: seq<QuizRecord>)
    requires QuizIdsDistinct(t)
    requires forall k :: 0 <= k < |t| ==> t[k].quizId != x.quizId
    ensures QuizIdsDistinct([x] + t)
  {
    var w := [x] + t;
    forall i, j | 0 <= i < j < |w| ensures w[i].quizId != w[j].quizId {
      assert w[j] == t[j - 1];
      if i > 0 {
        assert w[i] == t[i - 1];
      }
    }
  }

  /** Removing the records of a quiz that has none is the identity. */
  lemma WithoutAbsentQuiz(rs: seq<QuizRecord>, q: string)
    requires forall i :: 0 <= i < |rs| ==> rs[i].quizId != q
    ensures WithoutQuiz(rs, q) == rs
  {
  }
}
