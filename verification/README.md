# LearnEarnZone core logic in Dafny

This project models the pure decision logic of five pieces of the LearnEarnZone web
application. Each one is lifted out of its Next.js and Payload CMS plumbing:

- **Quiz completion** (`POST /api/quiz-attempts`, module `QuizAttempts`). The route runs an
  ordered chain of guards and checks whether the member already completed the quiz. On a
  first completion it credits the member's wallet with the quiz's points (default 10). It
  appends a completion record to the quiz history, replacing any stale record for the same
  quiz. It adds one blog record only if no record names the blog yet. A replay of a
  member's whole session of requests is also modelled: each request reads the member back
  with depth, as the route does, so the blog ids it wrote come back as populated blog
  references. This lets the model state "credited at most once", "the wallet moves by
  exactly the points reported" and "at most one record per blog".
- **Available quizzes** (`POST /api/get-all-blogs-with-quizzes`, module `AvailableQuizzes`).
  The route keeps the candidate blogs that still have a quiz the member has not completed.
  It counts them, computes `Math.ceil(total / limit)`, and slices one 1-indexed page. It
  turns each blog on the page into an article with defaults and quiz counts.
- **Page slugs** (the `beforeChange` hook of the `pages` collection, module `PageSlug`). On
  create, a missing slug is derived from the title: lower-case it, drop characters outside
  `a-z 0-9 \s -`, trim, and replace each white-space run by `-`.
- **Rich-text decisions** (module `RichText`), covering:
  - the `cn` class-name combiner and the renderer's root class;
  - `internalDocToHref`, and the link converter's href, target and rel;
  - the text-format bitmask and the nesting order of its wrappers, with the rendered
    output as a small tree `Span(U(Del(Em(Strong(Plain(t))))))`;
  - the ordered-list test;
  - the heading-style fallback;
  - the inline-code guard;
  - the code-block highlighter language.
- **Email verification** (`GET /api/auth/verify-email`, module `VerifyEmail`). The link's
  token and email select the first member whose token is unexpired. That member is marked
  verified and the token is cleared. A seven-day `member_id` cookie is set and the browser
  is sent to the dashboard. Every failure redirects to the login page.

Shared modules:
- `JsValues` covers the JavaScript value semantics these routes rely on: truthiness,
  `===`, `?.`, `String()` and `Array.prototype.slice`.
- `JsStrings` covers white space as `\s` and `trim` see it, ASCII lower-casing and trimming.
- `Members` holds the member document both routes write.

The CMS calls, the cookie store and the clock are not modelled. The parsed request body
(or the exception parsing it threw), the documents the CMS returns, whether a call throws,
the environment variables and `now` are parameters.
Outcomes are datatypes: an HTTP status with its body, a redirect location, or a written
document.

Behaviours of the code that are easy to misread, modelled as written:
- A quiz whose `questions` array is empty is not "not found". With an empty answers array
  it is credited.
- `quiz.points || 10` passes negative points through unchanged.
- A missing `memberId` in the quiz listing is answered 400, not 401.
- A repeat submission reports as its score the stored record's `score`. The route wrote
  the points earned into that field, not the question count. So a quiz first answered
  with score 3 and 20 points reports score 20 when repeated.
- The comments in the text converter call bit 4 "underline" and bit 8 "strikethrough".
  The code wraps bit 4 in `del` and bit 8 in `u`, and the model does the same.

## Model

| member | source | states |
|---|---|---|
| `QuizAttempts.Handle` | src/app/api/quiz-attempts/route.ts:7-123 | The whole route: the body is parsed first, and a parse failure is answered 500 before the cookie is read; a parsed body goes through `Submit`. Its contract is stated by `UnauthorizedIff` and `ServerErrorIff`. |
| `QuizAttempts.Submit` | src/app/api/quiz-attempts/route.ts:10-118 | The route after the body is parsed: the guard chain, the quiz and member lookups, the duplicate check and the credit. Its contract is stated by `BadRequestOrder`, `QuizNotFoundIff`, `MemberNotFoundIff`, `DuplicateIff`, `CompletedIff`, `CompletedEffect` and `AnswerContentsIgnored`. |
| `QuizAttempts.UnauthorizedIff` | src/app/api/quiz-attempts/route.ts:7-14 | A parsed request with a missing or empty `member_id` cookie always gives 401, whatever the body and the CMS hold. Nothing else ever gives 401; in particular an unparsable body gives 500 even without a cookie. |
| `QuizAttempts.BadRequestOrder` | src/app/api/quiz-attempts/route.ts:12-38 | The three 400 answers and their order. An empty or non-string quiz id is checked only after the cookie. Non-array answers are checked only after a valid id. A count mismatch, too few or too many, is checked only once the quiz is loaded with its questions. |
| `QuizAttempts.QuizNotFoundIff` | src/app/api/quiz-attempts/route.ts:25-34 | 404 "Quiz not found" exactly when the guards pass and the quiz is absent or has no `questions` field. An empty question list is not missing. |
| `QuizAttempts.MemberNotFoundIff` | src/app/api/quiz-attempts/route.ts:41-49 | 404 "Member not found" exactly when every earlier guard passes and the member lookup finds nothing. |
| `QuizAttempts.AnswerContentsIgnored` | src/app/api/quiz-attempts/route.ts:36-38 | Replacing the answers by any others of the same count never changes the outcome. |
| `QuizAttempts.FindAttempt` | src/app/api/quiz-attempts/route.ts:52-54 | The result is the first record with the quiz id, and it is absent exactly when no record has that id. |
| `QuizAttempts.DuplicateIff` | src/app/api/quiz-attempts/route.ts:51-68 | Once the guards pass, the answer is 409 exactly when the member has a record for the quiz. The 409 carries 0 points, the question count as total, and the score of the first such record. |
| `QuizAttempts.CompletedIff` | src/app/api/quiz-attempts/route.ts:12-106 | A quiz is credited exactly when every guard passes, the member has no record for it, and the update is written. |
| `QuizAttempts.PointsFor` | src/app/api/quiz-attempts/route.ts:71 | The reward, the quiz's points or 10 when they are missing or zero, is never zero. |
| `QuizAttempts.Credit` | src/app/api/quiz-attempts/route.ts:75-106 | The member update of a first completion. What it writes is stated by `CompletedEffect`. |
| `QuizAttempts.CompletedEffect` | src/app/api/quiz-attempts/route.ts:70-118 | On credit: score and total equal the question count. The points are the quiz's when non-zero, else 10. The wallet (0 when missing) grows by exactly those points. The quiz history gains one record at the end and holds exactly one for the quiz. The blog history is kept when a record names the blog, else it gains one record. No other member field changes. |
| `QuizAttempts.QuizHistoryAfter` | src/app/api/quiz-attempts/route.ts:92-99 | The rewritten quiz history has exactly one record for the quiz. Its records for other quizzes are the old ones, in order. Its length is the old length minus the dropped records plus one. It keeps distinct ids distinct. |
| `Members.WithoutQuiz` | src/app/api/quiz-attempts/route.ts:93 | Filtering out a quiz keeps exactly the records of other quizzes. Its length drops by the number of records for that quiz. |
| `Members.WithoutQuizKeepsDistinct` | src/app/api/quiz-attempts/route.ts:93 | Filtering a history with distinct quiz ids keeps them distinct. |
| `QuizAttempts.CreditKeepsQuizIdsDistinct` | src/app/api/quiz-attempts/route.ts:92-99 | A credit preserves the one-record-per-quiz invariant of the member document. |
| `QuizAttempts.ServerErrorIff` | src/app/api/quiz-attempts/route.ts:7-122 | 500 exactly when something the route awaits throws: parsing the body (a non-JSON body or JSON `null`), checked before the cookie; then, once the guards pass, obtaining the CMS client or the quiz lookup, the member lookup, or the update of a first completion. The error is the exception's message, or `Internal server error` when that is empty, so it is never empty. |
| `QuizAttempts.ResubmitIsDuplicate` | src/app/api/quiz-attempts/route.ts:41-99 | Submitting the same quiz against any later read of the member whose quiz history is the one first written gives 409 with 0 points, the first credit's points as score, and the same total. |
| `QuizAttempts.StepKeepsRecords` | src/app/api/quiz-attempts/route.ts:92-99 | A completion record survives every later request, and a credited quiz leaves a record. |
| `QuizAttempts.CreditedAtMostOnce` | src/app/api/quiz-attempts/route.ts:51-68 | Over any sequence of requests by one member a quiz is credited at most once, and never when a record already exists. |
| `QuizAttempts.WalletLedger` | src/app/api/quiz-attempts/route.ts:71-77 | After any sequence of requests the wallet equals the starting wallet plus the points reported by the credited requests. |
| `Members.PopulateAll` | src/app/api/quiz-attempts/route.ts:41-45 | Reading the member with depth maps each blog record on its own, keeping their number and order: a stored blog id becomes the blog document with that id. |
| `QuizAttempts.BlogCountPopulated` | src/app/api/quiz-attempts/route.ts:41-45 | Reading records back with depth does not change how many of them the route's `item.blog?.id === blogId` test matches for any blog. |
| `QuizAttempts.BlogCountNamed` | src/app/api/quiz-attempts/route.ts:80 | A blog's record count is positive exactly when some stored record passes the route's test for it. |
| `QuizAttempts.BlogStep` | src/app/api/quiz-attempts/route.ts:41-89 | A request whose blog id is a document id adds a record naming a blog only when no stored record names it yet. |
| `QuizAttempts.BlogRecordedAtMostOnce` | src/app/api/quiz-attempts/route.ts:80-89 | Over any sequence of requests with document-id blog ids, a blog ends with no more records than it started with, or one when it had none. |
| `AvailableQuizzes.List` | src/app/api/get-all-blogs-with-quizzes/route.ts:6-127 | The whole route, given what the body parse, the member query and the blog query each gave. Its contract is stated by `GuardsIff`, `ServerErrorIff` and `ListedReport`. |
| `AvailableQuizzes.GuardsIff` | src/app/api/get-all-blogs-with-quizzes/route.ts:8-32 | 400 exactly when the body parses and `memberId` is falsy, and 404 exactly when it is present and the member query returns no document. |
| `AvailableQuizzes.SomeOpen` | src/app/api/get-all-blogs-with-quizzes/route.ts:84-87 | The `some` test holds exactly when some entry is a present quiz with a present id that is not completed. |
| `AvailableQuizzes.KeepIff` | src/app/api/get-all-blogs-with-quizzes/route.ts:78-88 | A blog is kept exactly when `quizzes` is a non-empty array holding a present quiz whose id is not completed. |
| `AvailableQuizzes.Available` | src/app/api/get-all-blogs-with-quizzes/route.ts:78-88 | The filtered list holds only kept candidates, and every kept candidate is in it. |
| `AvailableQuizzes.AvailableIsOrderedSelection` | src/app/api/get-all-blogs-with-quizzes/route.ts:78-88 | The listed blogs are the kept candidates in their original relative order. There is a strictly increasing index sequence whose k-th entry is the position of the k-th listed blog, and it covers exactly the kept positions. |
| `AvailableQuizzes.TotalCountsKept` | src/app/api/get-all-blogs-with-quizzes/route.ts:91 | `total` equals the number of candidate positions the filter keeps. |
| `AvailableQuizzes.TotalPages` | src/app/api/get-all-blogs-with-quizzes/route.ts:92 | For a positive limit the page count is the ceiling of total over limit. A zero limit gives the non-finite value (`null` in JSON). A negative limit gives the ceiling of the negative quotient. |
| `AvailableQuizzes.PageOf` | src/app/api/get-all-blogs-with-quizzes/route.ts:93-94 | One page of the kept list. What it holds is stated by `PageWindow` and `PagesCoverAll`. |
| `AvailableQuizzes.PageWindow` | src/app/api/get-all-blogs-with-quizzes/route.ts:93-94 | With limit > 0 and page >= 1 the page is `[(page-1)*limit, (page-1)*limit + limit)` of the kept list, cut at its end, so it has at most `limit` blogs. |
| `AvailableQuizzes.PagesCoverAll` | src/app/api/get-all-blogs-with-quizzes/route.ts:92-94 | With limit > 0, pages 1 to `totalPages` laid end to end are exactly the kept list. |
| `AvailableQuizzes.Remaining` | src/app/api/get-all-blogs-with-quizzes/route.ts:104 | The remaining count fails (the read of `q.id` throws) exactly when an entry is null or undefined. Otherwise it is the number of entries whose `id` is not a completed quiz id (an entry without an `id` counts), so at most the number of entries and at least 1 when some quiz is open. |
| `AvailableQuizzes.NotDoneCons` | src/app/api/get-all-blogs-with-quizzes/route.ts:104 | The not-completed entries of a list are those of its tail plus its head when that is not completed. |
| `AvailableQuizzes.ToArticle` | src/app/api/get-all-blogs-with-quizzes/route.ts:97-112 | The article for one blog. What it holds is stated by `ListedReport`. |
| `AvailableQuizzes.Shown` | src/app/api/get-all-blogs-with-quizzes/route.ts:78-94 | Every blog on the requested page passes the filter. |
| `AvailableQuizzes.ArticlesShape` | src/app/api/get-all-blogs-with-quizzes/route.ts:97-112 | Mapping the page fails exactly when some blog's article fails. Otherwise the result has one article per blog, in order. |
| `AvailableQuizzes.ListedReport` | src/app/api/get-all-blogs-with-quizzes/route.ts:91-119 | A listing reports as `total` the number of kept candidates, the ceiling page count, and the requested page (1 by default). Each article keeps its blog's id, title, slug and category. Excerpt defaults to `''` and read time to 5 when falsy. `totalQuizzes` is the quiz count, `remainingQuizzes` is the number of its entries whose `id` is not completed, and `1 <= remainingQuizzes <= totalQuizzes`. |
| `AvailableQuizzes.ServerErrorIff` | src/app/api/get-all-blogs-with-quizzes/route.ts:7-125 | The route answers 500 exactly when something it awaits throws (the body parse; with a member id, obtaining the CMS client or the member query; with a member found, the category lookup or the blog query), or when every call returned and a blog on the requested page has a null or undefined quiz entry. |
| `PageSlug.BeforeChange` | src/collections/Pages.ts:84-95 | The hook. Its contract is stated by `BeforeChangeIff`. |
| `PageSlug.Slugify` | src/collections/Pages.ts:87-91 | The slug derived from a title. Its contract is stated by `SlugAlphabet`, `SlugIsJoinedWords`, `SlugKeepsLettersAndDigits` and `SlugIdempotent`. |
| `PageSlug.BeforeChangeIff` | src/collections/Pages.ts:84-95 | The hook changes the data only on create, with an empty slug and a non-empty title. It then sets the slug to the generated one and keeps title, content and seo. |
| `PageSlug.DropDisallowed` | src/collections/Pages.ts:89 | The result holds only `a-z`, `0-9`, white space and `-`, and a string already made of those is unchanged. |
| `PageSlug.DropDisallowedPiecewise` | src/collections/Pages.ts:89 | A single character survives exactly when it is allowed, and a concatenation keeps what each part keeps, in order; so the result is the allowed characters of the input in their original order. |
| `PageSlug.DashRuns` | src/collections/Pages.ts:91 | The result has no white space, and it is made of slug characters when the input holds only allowed characters. |
| `PageSlug.SlugAlphabet` | src/collections/Pages.ts:87-91 | A generated slug consists of `a-z`, `0-9` and `-` only. |
| `PageSlug.SlugIsJoinedWords` | src/collections/Pages.ts:87-91 | The slug is the words (maximal white-space-free pieces) of the filtered, lower-cased title joined by single `-`. So each inner white-space run becomes exactly one `-`, and leading or trailing white space leaves none. |
| `PageSlug.SlugKeepsLettersAndDigits` | src/collections/Pages.ts:87-91 | The slug's letters and digits are those of the lower-cased title, in the same order. |
| `PageSlug.SlugIdempotent` | src/collections/Pages.ts:87-91 | Deriving a slug from a generated slug returns it unchanged. |
| `JsStrings.ToLower` | src/collections/Pages.ts:88 | Lower-casing keeps the length, maps each character by the ASCII rule, and leaves no upper-case letter. |
| `JsStrings.TrimEmptyIffAllSpace` | src/components/RichText/index.tsx:409 | A string trims to `''` exactly when all of it is white space. |
| `RichText.Cn` | src/components/RichText/index.tsx:68-82 | The class-name combiner. Its contract is stated by `ClassesAppend`, `ClassesOfOne` and `CnRoundTrip`. |
| `RichText.OnKeys` | src/components/RichText/index.tsx:73-79 | An object argument contributes exactly the keys whose value is true. |
| `RichText.ClassesAppend` | src/components/RichText/index.tsx:68-82 | `cn` collects classes argument by argument: the classes of a concatenated argument list are those of its parts, in order. |
| `RichText.ClassesOfOne` | src/components/RichText/index.tsx:70-79 | A string argument contributes itself, an object its true keys, and a boolean or undefined nothing. |
| `RichText.CnRoundTrip` | src/components/RichText/index.tsx:68-82 | Splitting the output of `cn` at spaces gives back the collected class names in argument order, when none contains a space. |
| `RichText.RootClassShape` | src/components/RichText/index.tsx:531-547 | The root's classes are `payload-richtext`, then exactly one of `container` (gutter on, the default) and `max-w-none`, then `mx-auto` when prose is on (off by default), then the caller's class. |
| `RichText.InternalDocToHref` | src/components/RichText/index.tsx:105-112 | The path of an internal link. Its contract is stated by `LinkAgreesWithInternalDocToHref`. |
| `RichText.Link` | src/components/RichText/index.tsx:130-159 | The link converter's attributes. Its contract is stated by `LinkResolution`. |
| `RichText.LinkAgreesWithInternalDocToHref` | src/components/RichText/index.tsx:105-143 | For a document given as an object, `internalDocToHref` and the link converter yield the same path. For a bare id, `internalDocToHref` throws while the converter builds the path from the id. |
| `RichText.LinkResolution` | src/components/RichText/index.tsx:135-154 | A document link goes to `/posts/<slug>` for posts and to `/<slug>` otherwise, the slug being the document's `slug` when it is an object and the value itself otherwise. Without a document the url is used, else `#`. `target="_blank"` and `rel="noopener noreferrer"` are set together, exactly when `newTab` is truthy. |
| `RichText.RenderText` | src/components/RichText/index.tsx:284-365 | The text converter. Its contract is stated by `RenderTextWrappers`, `RenderTextFormatRoundTrip` and `RenderTextHighBitsIgnored`. |
| `RichText.RenderTextWrappers` | src/components/RichText/index.tsx:284-365 | The text is kept inside the outer span. Each of strong, em, del and u is present exactly when bit 1, 2, 4 or 8 is set, nested from the inside out in that order. |
| `RichText.RenderTextFormatRoundTrip` | src/components/RichText/index.tsx:288-351 | Reading the format back from the rendered wrappers gives the format modulo 16. |
| `RichText.RenderTextHighBitsIgnored` | src/components/RichText/index.tsx:294-351 | Bits above the fourth never change the rendering. |
| `RichText.LowBits` | src/components/RichText/index.tsx:294-339 | Each of the four bits the converter reads is that bit of the format modulo 16, and that remainder is their weighted sum. |
| `RichText.IsOrderedList` | src/components/RichText/index.tsx:372-377 | The ordered-list test. Its contract is stated by `LexicalListsAgree` and `OrderedOverridesListType`. |
| `RichText.LexicalListsAgree` | src/components/RichText/index.tsx:372-387 | For list nodes as the editor writes them, a list renders as `ol` exactly when its list type is `number`. |
| `RichText.OrderedOverridesListType` | src/components/RichText/index.tsx:372-377 | `ordered: true`, type `numberedlist` or tag `ol` makes a list ordered whatever its list type. |
| `RichText.HeadingStyle` | src/components/RichText/index.tsx:261-282 | The heading style chosen for a tag. Its contract is stated by `HeadingStyleFallback`. |
| `RichText.HeadingStyleFallback` | src/components/RichText/index.tsx:267-276 | Each of h1 to h6 selects its own style. Any style other than h2 is selected only by its own tag, so every other tag falls back to h2. |
| `RichText.InlineCode` | src/components/RichText/index.tsx:404-420 | The inline-code converter. Its contract is stated by `InlineCodeGuard`. |
| `RichText.InlineCodeGuard` | src/components/RichText/index.tsx:404-419 | Inline code renders nothing exactly when its text is empty or all white space. Otherwise it renders the text untrimmed. |
| `RichText.PrismLanguage` | src/components/RichText/index.tsx:441-444 | The highlighter language. Its contract is stated by `PrismLanguageCases` and `PrismLanguageIdempotent`. |
| `RichText.PrismLanguageCases` | src/components/RichText/index.tsx:441-444 | The language is never empty, `html`, `js` or upper case. A missing one becomes `markup`, `html` and `markup` become `markup`, and `js` becomes `javascript`. Any other passes through lower-cased. |
| `RichText.PrismLanguageIdempotent` | src/components/RichText/index.tsx:441-444 | Feeding the chosen language back in chooses it again. |
| `VerifyEmail.AppUrl` | src/app/api/auth/verify-email/route.ts:7 | The base url is the configured one (or `http://localhost:3000` when unset or empty) with one trailing `/` removed when present, and otherwise unchanged. |
| `VerifyEmail.AppUrlStripsOneSlash` | src/app/api/auth/verify-email/route.ts:7 | A base ending in `//` keeps one trailing `/`. |
| `VerifyEmail.Verify` | src/app/api/auth/verify-email/route.ts:8-57 | The whole route. Its contract is stated by `VerifySuccessIff`, `VerifySuccessEffect` and `VerifyFailures`. |
| `VerifyEmail.Matches` | src/app/api/auth/verify-email/route.ts:20-27 | The lookup's condition: same email, same token, and an expiry after now. `ExpiryIsStrict` states its boundary. |
| `VerifyEmail.LoginCookie` | src/app/api/auth/verify-email/route.ts:44-51 | The cookie set on success. Its attributes are stated by `VerifySuccessEffect`. |
| `VerifyEmail.FirstMatch` | src/app/api/auth/verify-email/route.ts:20-35 | The member updated is the first one matching the email, the token and an expiry strictly after now. There is none exactly when no member matches. |
| `VerifyEmail.ExpiryIsStrict` | src/app/api/auth/verify-email/route.ts:25 | A token is accepted up to, but not at, its expiry instant. |
| `VerifyEmail.VerifiedKeepsOtherFields` | src/app/api/auth/verify-email/route.ts:33-41 | The update sets `emailVerified` and clears the token and its expiry. Id, email, wallet and both histories are kept, and the verified member matches no link again. |
| `VerifyEmail.VerifySuccessIff` | src/app/api/auth/verify-email/route.ts:14-53 | The dashboard redirect happens exactly when both parameters are present, neither CMS call throws and some member matches. The cookie is set exactly then. Every other outcome leaves the members unchanged. |
| `VerifyEmail.VerifySuccessEffect` | src/app/api/auth/verify-email/route.ts:33-51 | On success only the first matching member is updated. The cookie is `member_id` holding that member's id: max age 604800 seconds, path `/`, http-only, `lax`, and secure exactly in production. |
| `VerifyEmail.VerifyFailures` | src/app/api/auth/verify-email/route.ts:14-57 | A missing or empty parameter gives the invalid-link redirect, no match gives the invalid-or-expired redirect, and an exception in either CMS call gives the verification-failed redirect. |
| `VerifyEmail.MatchingAfterVerify` | src/app/api/auth/verify-email/route.ts:33-41 | Verifying a member removes it, and only it, from the members any link matches. |
| `VerifyEmail.VerifyConsumesToken` | src/app/api/auth/verify-email/route.ts:20-41 | After a success, at any later time the same link matches the members it matched before, less the verified one. |
| `VerifyEmail.VerifyIsSingleUse` | src/app/api/auth/verify-email/route.ts:20-41 | A link that matched one member works once. Following it again, then or later, gives the invalid-or-expired redirect. |

## Left out

- CMS calls (`find`, `findByID`, `update`, `getPayload`), `NextResponse`, the cookie store,
  `req.json()` and URL parsing are I/O or foreign libraries. The results of the CMS calls and
  of `req.json()` in the quiz and listing routes are parameters: documents, absence, or an
  exception with its message. Obtaining the CMS client is folded into the lookup that
  follows it. The cookie store and URL parsing are taken never to throw.
- Members.Populate: a read with depth is modelled as replacing a stored string or numeric blog
  id by an object holding just that `id`; a reference to a deleted blog, and every other
  field of the populated blog, are not modelled.
- QuizAttempts.BlogRecordedAtMostOnce: covers blog ids that are strings or numbers. A `null`
  blog id never passes the route's `item.blog?.id === blogId` test, so each credit with one
  adds a record; an object sent as blog id is not a document id either. Both are as the code
  behaves and outside the lemma.
- AvailableQuizzes.List: the 500 answer's error text is not modelled; the outcome is only
  `ServerError`.
- The CMS query semantics of the listing (published status, category and search filters,
  the 1000-document cap, newest-first sort) are not modelled. The candidate list the query
  returns is an input.
- Both `new Date()` calls of a quiz credit are one `now`. ISO-8601 formatting of instants is
  not modelled, and the verification lookup's string comparison of ISO times is modelled as
  a comparison of instants.
- Concurrency is not modelled. The read-then-write of a quiz credit is one sequential step,
  so nothing is claimed about two submissions racing.
- Numbers are integers. Fractional, NaN and infinite `page`, `limit`, `points` and `format`
  values are not modelled, apart from the non-finite page count of a zero limit. Values of
  the wrong type for `page` and `limit` (strings, objects) are not modelled either.
- The user lookups are modelled by email and token equality on a sequence of member
  documents, with ids assumed distinct so that the update by id writes the matched
  document. The quiz route's member lookup by cookie id is one fetched document.
- Console logging, and the member document the quiz route returns beyond the update it
  writes, are not modelled.
- JsStrings.ToLower: lower-cases ASCII letters only. `toLowerCase` also maps non-ASCII
  letters, some of which (KELVIN SIGN, LATIN CAPITAL LETTER I WITH DOT ABOVE) produce ASCII
  letters. The slug properties therefore hold for all inputs under ASCII case mapping.
  Strings are sequences of code points, not UTF-16 code units.
- RichText.OnKeys: models an object argument of `cn` as its own string keys, taken to be distinct as an object's keys are, in property
  order. Integer-like keys, which `for..in` visits first in numeric order, and array
  arguments (whose index keys `cn` would add) are not modelled.
- RichText.LinkResolution: models the url branch as `String(url)`, where the converter
  passes a non-string truthy url through to the `href` prop unchanged.
- RichText.HeadingStyleFallback: compares tags by strict equality. The source indexes the
  style map with the tag converted to a property key, so a non-string tag whose string form
  is `h1` to `h6` would select that style. Inherited property names such as `constructor`
  would select a non-string value. Neither case is modelled.
- The JSX markup, CSS class strings, Prism highlighting, the `<meta>` stripping regex, the
  assembly of code-block text and the code block's aria label are not modelled. Neither are
  the image, media, banner, call-to-action and code block converters. The wrapper output of
  text nodes is an abstract tree.
