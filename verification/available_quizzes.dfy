/**
 The quiz-listing route (`POST /api/get-all-blogs-with-quizzes`): given the
 parsed request body, the member and the candidate blogs the CMS query
 returns (published blogs with quizzes, already narrowed by category and
 search term, newest first), keep the blogs that still have a quiz the
 member has not completed, count them, and return one page of them as
 articles. Each awaited call may instead throw, which the route answers
 with 500.
 */
module AvailableQuizzes {
  import opened JsValues
  import opened Members

  datatype Category = Category(id: string, title: string, slug: string)

  /** A blog document as the query returns it. `quizzes` is the relationship
      field as a JavaScript value: normally an array whose entries are
      populated quiz documents (objects with an `id`), raw ids, or `null`. */
  datatype Blog = Blog(
    id: string,
    title: string,
    slug: string,
    excerpt: Option<string>,
    readTime: Option<int>,
    quizzes: Value,
    category: Option<Category>)

  datatype Article = Article(
    id: string,
    title: string,
    slug: string,
    excerpt: string,
    readTime: int,
    totalQuizzes: nat,
    remainingQuizzes: nat,
    category: Option<Category>)

  /** The request fields this model keeps; `None` stands for an absent field. */
  datatype Request = Request(page: Option<int>, limit: Option<int>, memberId: Value)

  datatype ListOutcome =
    | MissingMemberId                                   // 400
    | MemberNotFound                                    // 404
    | Listed(articles: seq<Article>, total: nat, totalPages: Option<int>, currentPage: int)
    | ServerError                                       // 500

  const DefaultPage := 1
  const DefaultLimit := 25
  const DefaultExcerpt := ""
  const DefaultReadTime := 5

  /** `new Set(completedQuizIds.map(item => item.quizId))`. */
  function CompletedSet(m: Member): set<string> {
    set r | r in QuizHistory(m) :: r.quizId
  }

  /** `completed.has(v)`: only a string can be a member of the set. */
  predicate Has(done: set<string>, v: Value) {
    v.Str? && v.s in done
  }

  /** The test inside the filter's `some`: a present quiz with a present id
      that is not completed. */
  predicate Open(quiz: Value, done: set<string>) {
    Truthy(quiz) && Truthy(OptionalGet(quiz, "id")) && !Has(done, OptionalGet(quiz, "id"))
  }

  /** `quizzes.some(quiz => …)`, evaluated left to right. */
  function SomeOpen(quizzes: seq<Value>, done: set<string>): (r: bool)
    ensures r <==> exists i :: 0 <= i < |quizzes| && Open(quizzes[i], done)
  {
    if |quizzes| == 0 then false
    else if Open(quizzes[0], done) then true
    else
      var r := SomeOpen(quizzes[1..], done);
      assert forall i :: 1 <= i < |quizzes| ==> quizzes[i] == quizzes[1..][i - 1];
      r
  }

  /** The filter predicate of `availableBlogs`. */
  predicate Keep(b: Blog, done: set<string>) {
    b.quizzes.Arr? && |b.quizzes.elems| > 0 && SomeOpen(b.quizzes.elems, done)
  }

  /** A blog is listed exactly when its quiz list is a non-empty array holding
      a present quiz whose id is not completed. */
  lemma KeepIff(b: Blog, done: set<string>)
    ensures Keep(b, done) <==>
      && b.quizzes.Arr?
      && |b.quizzes.elems| > 0
      && exists i :: 0 <= i < |b.quizzes.elems| && Open(b.quizzes.elems[i], done)
  {
  }

  /** `blogs.filter(blog => Keep(blog))`. */
  function Available(blogs: seq<Blog>, done: set<string>): (r: seq<Blog>)
    ensures |r| <= |blogs|
    ensures forall k :: 0 <= k < |r| ==> r[k] in blogs && Keep(r[k], done)
    ensures forall i :: 0 <= i < |blogs| && Keep(blogs[i], done) ==> blogs[i] in r
  {
    if |blogs| == 0 then []
    else
      var rest := Available(blogs[1..], done);
      assert forall i :: 1 <= i < |blogs| ==> blogs[i] == blogs[1..][i - 1];
      if Keep(blogs[0], done) then [blogs[0]] + rest else rest
  }

  /** The elements of `xs` whose mask entry is set, in order. */
  function Select<T>(xs: seq<T>, mask: seq<bool>): seq<T>
    requires |mask| == |xs|
  {
    if |xs| == 0 then [] else (if mask[0] then [xs[0]] else []) + Select(xs[1..], mask[1..])
  }

  /** Strictly increasing positions. */
  predicate Increasing(idx: seq<nat>) {
    forall k, l :: 0 <= k < l < |idx| ==> idx[k] < idx[l]
  }

  /** `idx` lists, in order, the positions of the elements `sel` holds:
      every listed position is masked and every masked position is listed. */
  ghost predicate PositionsOf<T>(xs: seq<T>, mask: seq<bool>, sel: seq<T>, idx: seq<nat>)
    requires |mask| == |xs|
  {
    && |idx| == |sel|
    && (forall k :: 0 <= k < |idx| ==> idx[k] < |xs| && mask[idx[k]] && sel[k] == xs[idx[k]])
    && Increasing(idx)
    && (forall i :: 0 <= i < |xs| && mask[i] ==> exists k :: 0 <= k < |idx| && idx[k] == i)
  }

  /** `Select` keeps exactly the masked positions, in increasing order. */
  lemma {:induction false} SelectPositions<T>(xs: seq<T>, mask: seq<bool>) returns (idx: seq<nat>)
    requires |mask| == |xs|
    ensures PositionsOf(xs, mask, Select(xs, mask), idx)
  {
    if |xs| == 0 {
      idx := [];
    } else {
      var rest := Select(xs[1..], mask[1..]);
      var tail := SelectPositions(xs[1..], mask[1..]);
      var head: seq<nat> := if mask[0] then [0] else [];
      var sh := Shift(tail);
      idx := head + sh;
      PositionsOfTail(xs, mask, rest, tail);
      ShiftedPositions(tail, sh, head, idx);
      SelectStep(xs, mask, rest, tail, head, idx);
    }
  }

  /** Positions in `xs[1..]` read as positions in `xs`, one place further. */
  lemma PositionsOfTail<T>(xs: seq<T>, mask: seq<bool>, rest: seq<T>, tail: seq<nat>)
    requires |mask| == |xs| > 0
    requires PositionsOf(xs[1..], mask[1..], rest, tail)
    ensures |tail| == |rest|
    ensures forall k :: 0 <= k < |tail| ==> tail[k] + 1 < |xs| && mask[tail[k] + 1] && rest[k] == xs[tail[k] + 1]
    ensures forall i :: 1 <= i < |xs| && mask[i] ==> exists k :: 0 <= k < |tail| && tail[k] + 1 == i
  {
    forall k | 0 <= k < |tail| ensures tail[k] + 1 < |xs| && mask[tail[k] + 1] && rest[k] == xs[tail[k] + 1] {
      assert mask[1..][tail[k]] == mask[tail[k] + 1];
      assert xs[1..][tail[k]] == xs[tail[k] + 1];
    }
    forall i | 1 <= i < |xs| && mask[i] ensures exists k :: 0 <= k < |tail| && tail[k] + 1 == i {
      assert mask[1..][i - 1];
    }
  }

  /** The induction step of `SelectPositions`. */
  lemma SelectStep<T>(xs: seq<T>, mask: seq<bool>, rest: seq<T>, tail: seq<nat>, head: seq<nat>, idx: seq<nat>)
    requires |mask| == |xs| > 0
    requires |tail| == |rest|
    requires forall k :: 0 <= k < |tail| ==> tail[k] + 1 < |xs| && mask[tail[k] + 1] && rest[k] == xs[tail[k] + 1]
    requires forall i :: 1 <= i < |xs| && mask[i] ==> exists k :: 0 <= k < |tail| && tail[k] + 1 == i
    requires head == if mask[0] then [0] else []
    requires |idx| == |head| + |tail|
    requires forall k :: |head| <= k < |idx| ==> idx[k] == tail[k - |head|] + 1
    requires head == [0] ==> idx[0] == 0
    requires Increasing(idx)
    ensures PositionsOf(xs, mask, (if mask[0] then [xs[0]] else []) + rest, idx)
  {
    StepElements(xs, mask, rest, tail, head, idx);
    StepCoverage(xs, mask, tail, head, idx);
  }

  lemma StepElements<T>(xs: seq<T>, mask: seq<bool>, rest: seq<T>, tail: seq<nat>, head: seq<nat>, idx: seq<nat>)
    requires |mask| == |xs| > 0
    requires |tail| == |rest|
    requires forall k :: 0 <= k < |tail| ==> tail[k] + 1 < |xs| && mask[tail[k] + 1] && rest[k] == xs[tail[k] + 1]
    requires head == if mask[0] then [0] else []
    requires |idx| == |head| + |tail|
    requires forall k :: |head| <= k < |idx| ==> idx[k] == tail[k - |head|] + 1
    requires head == [0] ==> idx[0] == 0
    ensures var sel := (if mask[0] then [xs[0]] else []) + rest;
      |idx| == |sel| && forall k :: 0 <= k < |idx| ==> idx[k] < |xs| && mask[idx[k]] && sel[k] == xs[idx[k]]
  {
    var h := |head|;
    var sel := (if mask[0] then [xs[0]] else []) + rest;
    forall k | 0 <= k < |idx| ensures idx[k] < |xs| && mask[idx[k]] && sel[k] == xs[idx[k]] {
      if k >= h {
        assert sel[k] == rest[k - h];
      }
    }
  }

  lemma StepCoverage<T>(xs: seq<T>, mask: seq<bool>, tail: seq<nat>, head: seq<nat>, idx: seq<nat>)
    requires |mask| == |xs| > 0
    requires forall i :: 1 <= i < |xs| && mask[i] ==> exists k :: 0 <= k < |tail| && tail[k] + 1 == i
    requires head == if mask[0] then [0] else []
    requires |idx| == |head| + |tail|
    requires forall k :: |head| <= k < |idx| ==> idx[k] == tail[k - |head|] + 1
    requires head == [0] ==> idx[0] == 0
    ensures forall i :: 0 <= i < |xs| && mask[i] ==> exists k :: 0 <= k < |idx| && idx[k] == i
  {
    var h := |head|;
    forall i | 0 <= i < |xs| && mask[i] ensures exists k :: 0 <= k < |idx| && idx[k] == i {
      if i == 0 {
        assert idx[0] == 0;
      } else {
        var j :| 0 <= j < |tail| && tail[j] + 1 == i;
        assert idx[j + h] == i;
      }
    }
  }

  /** Prefixing `0` or nothing to the tail positions moved one place right. */
  lemma ShiftedPositions(tail: seq<nat>, sh: seq<nat>, head: seq<nat>, idx: seq<nat>)
    requires Increasing(tail)
    requires |sh| == |tail| && forall k :: 0 <= k < |tail| ==> sh[k] == tail[k] + 1
    requires head == [] || head == [0]
    requires idx == head + sh
    ensures |idx| == |head| + |tail|
    ensures forall k :: |head| <= k < |idx| ==> idx[k] == tail[k - |head|] + 1
    ensures head == [0] ==> idx[0] == 0
    ensures Increasing(idx)
  {
    var h := |head|;
    forall k | h <= k < |idx| ensures idx[k] == tail[k - h] + 1 {
      assert idx[k] == sh[k - h];
    }
    forall k, l | 0 <= k < l < |idx| ensures idx[k] < idx[l] {
      assert idx[l] == tail[l - h] + 1;
      if k >= h {
        assert idx[k] == tail[k - h] + 1;
      } else {
        assert idx[k] == head[k] == 0;
      }
    }
  }

  /** Which candidates the filter keeps. */
  function KeepMask(blogs: seq<Blog>, done: set<string>): (m: seq<bool>)
    ensures |m| == |blogs|
    ensures forall i :: 0 <= i < |blogs| ==> m[i] == Keep(blogs[i], done)
  {
    seq(|blogs|, i requires 0 <= i < |blogs| => Keep(blogs[i], done))
  }

  lemma {:induction false} AvailableIsSelect(blogs: seq<Blog>, done: set<string>)
    ensures Available(blogs, done) == Select(blogs, KeepMask(blogs, done))
  {
    if |blogs| > 0 {
      AvailableIsSelect(blogs[1..], done);
      assert KeepMask(blogs, done)[1..] == KeepMask(blogs[1..], done);
    }
  }

  /** The listed blogs are the kept candidates in their original order: the
      k-th listed blog is the candidate at the k-th position, in increasing
      order, of the positions whose blog is kept. */
  lemma AvailableIsOrderedSelection(blogs: seq<Blog>, done: set<string>)
    returns (idx: seq<nat>)
    ensures |idx| == |Available(blogs, done)|
    ensures forall k :: 0 <= k < |idx| ==> idx[k] < |blogs| && Available(blogs, done)[k] == blogs[idx[k]]
    ensures forall k, l :: 0 <= k < l < |idx| ==> idx[k] < idx[l]
    ensures forall i :: 0 <= i < |blogs| ==> (Keep(blogs[i], done) <==> i in idx)
  {
    AvailableIsSelect(blogs, done);
    var mask := KeepMask(blogs, done);
    idx := SelectPositions(blogs, mask);
    assert PositionsOf(blogs, mask, Available(blogs, done), idx);
    forall i | 0 <= i < |blogs| ensures Keep(blogs[i], done) <==> i in idx {
      if i in idx {
        var k :| 0 <= k < |idx| && idx[k] == i;
        assert mask[idx[k]];
      }
    }
  }

  /** Every position moved one place to the right. */
  function Shift(s: seq<nat>): seq<nat> {
    seq(|s|, k requires 0 <= k < |s| => s[k] + 1)
  }

  /** The number of listed blogs equals the number of kept candidates. */
  function CountKept(blogs: seq<Blog>, done: set<string>): nat {
    |set i | 0 <= i < |blogs| && Keep(blogs[i], done)|
  }

  lemma TotalCountsKept(blogs: seq<Blog>, done: set<string>)
    ensures |Available(blogs, done)| == CountKept(blogs, done)
  {
    var idx := AvailableIsOrderedSelection(blogs, done);
    var positions := set i | 0 <= i < |blogs| && Keep(blogs[i], done);
    assert positions == set k | 0 <= k < |idx| :: idx[k];
    DistinctSeqCard(idx);
  }

  /** A strictly increasing sequence has as many distinct elements as entries. */
  lemma {:induction false} DistinctSeqCard(idx: seq<nat>)
    requires forall k, l :: 0 <= k < l < |idx| ==> idx[k] < idx[l]
    ensures |set k | 0 <= k < |idx| :: idx[k]| == |idx|
  {
    if |idx| > 0 {
      var init := idx[..|idx| - 1];
      DistinctSeqCard(init);
      var s := set k | 0 <= k < |init| :: init[k];
      var t := set k | 0 <= k < |idx| :: idx[k];
      assert t == s + {idx[|idx| - 1]};
      assert idx[|idx| - 1] !in s;
    }
  }

  /** `Math.ceil(total / limit)`, where `None` is the non-finite quotient a
      zero limit gives (serialised as `null`). */
  function TotalPages(total: nat, limit: int): (r: Option<int>)
    ensures limit == 0 <==> r.None?
    ensures limit > 0 ==> r.value >= 0 && r.value * limit >= total && (r.value - 1) * limit < total
    ensures limit < 0 ==> r.value * limit <= total && (r.value - 1) * limit > total
  {
    if limit > 0 then
      var t := (total + limit - 1) / limit;
      CeilDiv(total, limit);
      Some(t)
    else if limit == 0 then None
    else
      var t := -(total / -limit);
      assert total / -limit * -limit <= total < (total / -limit + 1) * -limit;
      Some(t)
  }

  lemma CeilDiv(total: nat, limit: int)
    requires limit > 0
    ensures var t := (total + limit - 1) / limit;
      t >= 0 && t * limit >= total && (t - 1) * limit < total
  {
    var t := (total + limit - 1) / limit;
    assert t * limit <= total + limit - 1 < (t + 1) * limit;
  }

  /** `(page - 1) * limit`. */
  function StartIndex(page: int, limit: int): int {
    (page - 1) * limit
  }

  /** `availableBlogs.slice(start, start + limit)`. */
  function PageOf<T>(xs: seq<T>, page: int, limit: int): seq<T> {
    Slice(xs, StartIndex(page, limit), StartIndex(page, limit) + limit)
  }

  function Min(a: int, b: int): int { if a <= b then a else b }

  /** With a positive limit and a page number from 1, a page is the window
      `[(page-1)*limit, (page-1)*limit + limit)` of the list cut to its end,
      so it never holds more than `limit` blogs. */
  lemma PageWindow<T>(xs: seq<T>, page: int, limit: int)
    requires limit > 0 && page >= 1
    ensures var start := Min((page - 1) * limit, |xs|);
      var end := Min((page - 1) * limit + limit, |xs|);
      PageOf(xs, page, limit) == xs[start..end]
    ensures |PageOf(xs, page, limit)| <= limit
  {
    assert (page - 1) * limit >= 0;
  }

  /** Pages 1 to n laid end to end. */
  function Pages<T>(xs: seq<T>, limit: int, n: nat): seq<T> {
    if n == 0 then [] else Pages(xs, limit, n - 1) + PageOf(xs, n, limit)
  }

  lemma {:induction false} PagesPrefix<T>(xs: seq<T>, limit: int, n: nat)
    requires limit > 0
    ensures Pages(xs, limit, n) == xs[..Min(n * limit, |xs|)]
  {
    if n > 0 {
      var a, b := PagesStep(xs, limit, n);
      assert Pages(xs, limit, n - 1) == xs[..a] by {
        PagesPrefix(xs, limit, n - 1);
      }
      assert xs[..a] + xs[a..b] == xs[..b];
    }
  }

  lemma PagesStep<T>(xs: seq<T>, limit: int, n: nat) returns (a: nat, b: nat)
    requires limit > 0 && n > 0
    ensures a == Min((n - 1) * limit, |xs|) && b == Min(n * limit, |xs|) && a <= b <= |xs|
    ensures Pages(xs, limit, n) == Pages(xs, limit, n - 1) + xs[a..b]
  {
    PageWindow(xs, n, limit);
    var s := (n - 1) * limit;
    assert s + limit == n * limit;
    a, b := Min(s, |xs|), Min(s + limit, |xs|);
  }

  /** With a positive limit, pages 1 to `totalPages` together list every
      kept blog exactly once and in order. */
  lemma PagesCoverAll<T>(xs: seq<T>, limit: int)
    requires limit > 0
    ensures Pages(xs, limit, TotalPages(|xs|, limit).value) == xs
  {
    var t := TotalPages(|xs|, limit).value;
    PagesPrefix(xs, limit, t);
    assert xs[..|xs|] == xs;
  }

  /** The positions of the quiz entries whose `id` the member has not
      completed (an entry without an `id` counts as not completed). */
  function NotDone(quizzes: seq<Value>, done: set<string>): set<nat> {
    set i: nat | i < |quizzes| && !Has(done, OptionalGet(quizzes[i], "id"))
  }

  /** `quizzes.filter(q => !completed.has(q.id)).length`, or `None` when an
      entry is `null` or `undefined`, where reading `q.id` throws. */
  function Remaining(quizzes: seq<Value>, done: set<string>): (r: Option<nat>)
    ensures r.None? <==> exists i :: 0 <= i < |quizzes| && Nullish(quizzes[i])
    ensures r.Some? ==> r.value == |NotDone(quizzes, done)|
    ensures r.Some? ==> r.value <= |quizzes|
    ensures r.Some? && (exists i :: 0 <= i < |quizzes| && Open(quizzes[i], done)) ==> r.value >= 1
  {
    if |quizzes| == 0 then
      assert NotDone(quizzes, done) == {};
      Some(0)
    else if Nullish(quizzes[0]) then None
    else
      var rest := Remaining(quizzes[1..], done);
      assert forall i :: 1 <= i < |quizzes| ==> quizzes[i] == quizzes[1..][i - 1];
      match rest
      case None => None
      case Some(n) =>
        var here := if Has(done, OptionalGet(quizzes[0], "id")) then 0 else 1;
        NotDoneCons(quizzes, done);
        Some(here + n)
  }

  /** The open positions of a list are those of its tail, moved up by one,
      and position 0 when the head is open. */
  lemma NotDoneCons(quizzes: seq<Value>, done: set<string>)
    requires |quizzes| > 0
    ensures |NotDone(quizzes, done)| ==
      (if Has(done, OptionalGet(quizzes[0], "id")) then 0 else 1) + |NotDone(quizzes[1..], done)|
  {
    var tail := NotDone(quizzes[1..], done);
    var moved := Moved(tail);
    var head: set<nat> := if Has(done, OptionalGet(quizzes[0], "id")) then {} else {0};
    assert NotDone(quizzes, done) == head + moved by {
      forall i: nat | i in NotDone(quizzes, done) ensures i in head + moved {
        if i > 0 {
          assert quizzes[1..][i - 1] == quizzes[i];
          assert i - 1 in tail;
        }
      }
      forall i | i in moved ensures i in NotDone(quizzes, done) {
        assert quizzes[1..][i - 1] == quizzes[i];
      }
    }
    ShiftedCard(tail);
    assert 0 !in moved;
    assert |head + moved| == |head| + |moved|;
  }

  /** Every position moved up by one. */
  function Moved(s: set<nat>): set<nat> {
    set i | i in s :: i + 1
  }

  /** Moving every position up by one keeps their number. */
  lemma {:induction false} ShiftedCard(s: set<nat>)
    ensures |Moved(s)| == |s|
    decreases |s|
  {
    if s != {} {
      var x :| x in s;
      var rest := Moved(s - {x});
      ShiftedCard(s - {x});
      assert x + 1 !in rest;
      assert Moved(s) == rest + {x + 1} by {
        forall y | y in s ensures y + 1 in rest + {x + 1} {
          if y != x {
            assert y in s - {x};
          }
        }
      }
    }
  }

  /** The article for a listed blog, or `None` when building it throws. */
  function ToArticle(b: Blog, done: set<string>): Option<Article>
    requires b.quizzes.Arr?
  {
    match Remaining(b.quizzes.elems, done)
    case None => None
    case Some(remaining) =>
      Some(Article(
        b.id, b.title, b.slug,
        if b.excerpt.Some? && b.excerpt.value != "" then b.excerpt.value else DefaultExcerpt,
        if b.readTime.Some? && b.readTime.value != 0 then b.readTime.value else DefaultReadTime,
        |b.quizzes.elems|,
        remaining,
        b.category))
  }

  /** `paginatedBlogs.map(blog => article)`, throwing at the first blog whose
      article throws. */
  function Articles(blogs: seq<Blog>, done: set<string>): Option<seq<Article>>
    requires forall i :: 0 <= i < |blogs| ==> blogs[i].quizzes.Arr?
  {
    if |blogs| == 0 then Some([])
    else
      match ToArticle(blogs[0], done)
      case None => None
      case Some(a) =>
        match Articles(blogs[1..], done)
        case None => None
        case Some(rest) => Some([a] + rest)
  }

  lemma {:induction false} ArticlesShape(blogs: seq<Blog>, done: set<string>)
    requires forall i :: 0 <= i < |blogs| ==> blogs[i].quizzes.Arr?
    ensures Articles(blogs, done).None? <==> exists i :: 0 <= i < |blogs| && ToArticle(blogs[i], done).None?
    ensures Articles(blogs, done).Some? ==>
      && |Articles(blogs, done).value| == |blogs|
      && forall i :: 0 <= i < |blogs| ==> Articles(blogs, done).value[i] == ToArticle(blogs[i], done).value
  {
    if |blogs| > 0 {
      ArticlesShape(blogs[1..], done);
      assert forall i :: 1 <= i < |blogs| ==> blogs[i] == blogs[1..][i - 1];
    }
  }

  /** The blogs on the requested page: the kept candidates sliced by the
      requested (or default) page and limit. */
  function Shown(req: Request, candidates: seq<Blog>, done: set<string>): (r: seq<Blog>)
    ensures forall i :: 0 <= i < |r| ==> Keep(r[i], done)
  {
    var kept := Available(candidates, done);
    var r := PageOf(kept, req.page.GetOr(DefaultPage), req.limit.GetOr(DefaultLimit));
    assert forall i :: 0 <= i < |r| ==> r[i] in kept;
    r
  }

  /** A blog whose quiz list holds a `null` or `undefined` entry. */
  predicate Dangling(b: Blog) {
    b.quizzes.Arr? && exists j :: 0 <= j < |b.quizzes.elems| && Nullish(b.quizzes.elems[j])
  }

  /** One request to the route, given what each awaited step gave: parsing
      the body (a non-JSON body, or JSON `null`, which cannot be
      destructured, throws); the member query, whose `Raised` also stands
      for obtaining the CMS client just before it; and the blog query, whose
      `Raised` also stands for the category lookup just before it. A later
      step is only reached when the earlier ones returned. */
  function List(body: Try<Request>, member: Try<Option<Member>>, candidates: Try<seq<Blog>>)
    : ListOutcome
  {
    match body
    case Raised(_) => ServerError
    case Returned(req) =>
      if !Truthy(req.memberId) then MissingMemberId
      else
        match member
        case Raised(_) => ServerError
        case Returned(None) => MemberNotFound
        case Returned(Some(m)) =>
          match candidates
          case Raised(_) => ServerError
          case Returned(blogs) =>
            var done := CompletedSet(m);
            var kept := Available(blogs, done);
            var limit := req.limit.GetOr(DefaultLimit);
            match Articles(Shown(req, blogs, done), done)
            case None => ServerError
            case Some(articles) => Listed(articles, |kept|, TotalPages(|kept|, limit), req.page.GetOr(DefaultPage))
  }

  /** The 400 and 404 answers and when they are given: a parsed body without
      a truthy `memberId` is refused before any CMS call, and a member query
      that returned no document is answered 404. */
  lemma GuardsIff(body: Try<Request>, member: Try<Option<Member>>, candidates: Try<seq<Blog>>)
    ensures List(body, member, candidates) == MissingMemberId <==>
      body.Returned? && !Truthy(body.value.memberId)
    ensures List(body, member, candidates) == MemberNotFound <==>
      body.Returned? && Truthy(body.value.memberId) && member == Returned(None)
  {
  }

  /** What a listing reports: the total is the number of kept candidates, the
      page count is the ceiling of total over limit, the current page echoes
      the requested page (1 when absent), and each article carries its blog's
      identity, its defaults, and between 1 and `totalQuizzes` remaining
      quizzes. */
  lemma ListedReport(body: Try<Request>, member: Try<Option<Member>>, candidates: Try<seq<Blog>>)
    requires List(body, member, candidates).Listed?
    ensures var r := List(body, member, candidates);
      var req := body.value;
      var done := CompletedSet(member.value.value);
      var candidates := candidates.value;
      var kept := Available(candidates, done);
      var page := req.page.GetOr(DefaultPage);
      var limit := req.limit.GetOr(DefaultLimit);
      var shown := Shown(req, candidates, done);
      && r.total == CountKept(candidates, done)
      && r.currentPage == page
      && r.totalPages == TotalPages(|kept|, limit)
      && |r.articles| == |shown|
      && forall i :: 0 <= i < |r.articles| ==>
           var a := r.articles[i];
           && a.id == shown[i].id && a.title == shown[i].title && a.slug == shown[i].slug
           && a.category == shown[i].category
           && (shown[i].excerpt.Some? && shown[i].excerpt.value != "" ==> a.excerpt == shown[i].excerpt.value)
           && (shown[i].excerpt.None? || shown[i].excerpt == Some("") ==> a.excerpt == DefaultExcerpt)
           && (shown[i].readTime.Some? && shown[i].readTime.value != 0 ==> a.readTime == shown[i].readTime.value)
           && (shown[i].readTime.None? || shown[i].readTime == Some(0) ==> a.readTime == DefaultReadTime)
           && a.totalQuizzes == |shown[i].quizzes.elems|
           && 1 <= a.remainingQuizzes <= a.totalQuizzes
           && a.remainingQuizzes == |NotDone(shown[i].quizzes.elems, done)|
  {
    var done := CompletedSet(member.value.value);
    var shown := Shown(body.value, candidates.value, done);
    ArticlesShape(shown, done);
    TotalCountsKept(candidates.value, done);
    forall i | 0 <= i < |shown| ensures Remaining(shown[i].quizzes.elems, done).Some? {
      assert ToArticle(shown[i], done).Some?;
    }
  }

  /** The route answers 500 exactly when something it awaits throws (the
      body parse; with a member id, the member query; with a member found,
      the blog query), or when every call returned but a blog on the
      requested page has a `null` or `undefined` quiz entry: the
      remaining-quiz count reads `q.id` without the guard the filter uses. */
  lemma ServerErrorIff(body: Try<Request>, member: Try<Option<Member>>, candidates: Try<seq<Blog>>)
    ensures List(body, member, candidates) == ServerError <==>
      || body.Raised?
      || (&& Truthy(body.value.memberId)
          && (|| member.Raised?
              || (&& member.value.Some?
                  && (|| candidates.Raised?
                      || PageHasDangling(body.value, member.value.value, candidates.value)))))
  {
    if body.Returned? && member.Returned? && member.value.Some? && candidates.Returned? {
      var done := CompletedSet(member.value.value);
      var shown := Shown(body.value, candidates.value, done);
      ArticlesShape(shown, done);
      assert forall i :: 0 <= i < |shown| ==> (ToArticle(shown[i], done).None? <==> Dangling(shown[i]));
    }
  }

  /** Some blog on the requested page has a `null` or `undefined` quiz entry. */
  predicate PageHasDangling(req: Request, m: Member, candidates: seq<Blog>) {
    var shown := Shown(req, candidates, CompletedSet(m));
    exists i :: 0 <= i < |shown| && Dangling(shown[i])
  }
}
