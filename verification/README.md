# Quadrangle forum core, modelled in Dafny

Quadrangle is a college-scoped discussion forum. Users post threads and comments and can like or dislike them.
Each thread keeps a denormalised integer `score` next to its ThreadVote rows.
This project models the logic around that score, plus the small pure helpers around it:

- `votes.dfy` (module `Votes`): the vote state machine `handle_thread_like` and its reader `get_like_status`.
  The ThreadVote rows of a thread are a `map<VoterId, bool>` holding `is_upvote`.
  A press is `pressed: bool`, where true means like and false means dislike.
  The main result is the invariant that the score equals the sum of +1 per upvote and -1 per downvote (`Consistent`).
  It is proved for one request, for the whole forum, and for any sequence of requests.
- `cookies.dfy` (module `Cookies`): `getCookie`, which like.js and likeComment.js both define, with the same text.
- `display.dfy` (module `Display`): the button classes chosen from a like status (`updateButtons`, `updateThreadButtons`, `updateCommentButtons`, `updateButton`), the score element's class and text (`updateScore`, the `represent` formatters), the per-comment element ids, and the comment like URL.
- `messages.dfy` (module `Messages`): `get_tags`, `alert` with its message-type check, and the five canned alerts.
  Each dispatch is modelled as the level, message and tags passed to Django's message function.
- `signup.dfy` (module `Signup`): `MyUserCreationForm.clean`.
  The user table is passed in as a set of e-mail addresses, and the CollegeEmail table as a map from domain to college.
- `slugs.dfy` (module `Slugs`): `random_string_generator` and `unique_slugify`.
- `text.dfy` (module `Text`) holds the string semantics the source relies on:
  - `str.split` / `String.prototype.split` on a one-character separator;
  - JavaScript `trim` and the clamping `substring`;
  - decimal rendering of integers in template literals.
- `results.dfy` (module `Results`) holds `Option` and `Result`.

Parts of the environment are passed in as parameters:
- `decodeURIComponent` (cookies) and `slugify` (slugs) are function parameters that the model does not interpret;
- the random draws of `random.choice` are a supplied sequence of indices;
- the database tables are values.

A vote has three states: no row, `is_upvote = True` and `is_upvote = False`.

## Model

| member | source | states |
|---|---|---|
| Votes.GetLikeStatus | quad/colleges/views.py:122-133 | The status is 0 exactly when the voter has no row, 1 exactly for an upvote and -1 exactly for a downvote. It equals the weight of the stored vote. |
| Votes.HandleThreadLike | quad/colleges/views.py:257-301 | The voter's vote afterwards is the reference `Toggle` of the vote before: the same button withdraws the vote, any other press sets it. No other voter's row changes. The score moves by exactly the change in the voter's weight. The returned status is `get_like_status` of the post-state. |
| Votes.TransitionTable | quad/colleges/views.py:264-298 | Each of the six cases, seen from outside. No vote: a row with `is_upvote = pressed` is created, with ±1 and status ±1. Up+like: the row is deleted, -1, status 0. Up+dislike: the vote flips, -2, status -1. Down+like: the vote flips, +2, status 1. Down+dislike: the row is deleted, +1, status 0. |
| Votes.LikePreservesConsistency | quad/colleges/views.py:264-300 | If the score equals the ±1 sum over the thread's rows before a request, it still does afterwards. |
| Votes.LikeTouchesOnlyVoter | quad/colleges/views.py:265 | Every other voter's vote on the thread is unchanged. |
| Votes.DoublePressRestores | quad/colleges/views.py:266-298 | Pressing the same button twice gives back the identical rows and score exactly when the voter did not start with the opposite vote. |
| Votes.DoublePressFromNoVote | quad/colleges/views.py:264-298 | From no vote, a second press of the same button restores the rows and the score. |
| Votes.ScoreBounded | quad/colleges/views.py:264-298 | A consistent score is at most the number of vote rows in absolute value. |
| Votes.HandleForumLike | quad/colleges/views.py:264-298 | A request against one thread leaves every other thread of the forum identical. On the addressed thread the voter's vote toggles, the other voters' rows stay, and the score moves by the change in the voter's weight. It returns that thread's post-state status. |
| Votes.ForumLikePreservesConsistency | quad/colleges/views.py:264-300 | The score invariant holds for every thread after any single request. |
| Votes.ReplaySingle | quad/colleges/views.py:223-252 | One request is one call of the handler on its thread; a request for a missing thread (a 404) changes nothing. |
| Votes.ReplayConcat | quad/colleges/views.py:223-252 | Requests compose: replaying two sequences one after the other equals replaying their concatenation. |
| Votes.ReplayPreservesConsistency | quad/colleges/views.py:238-252 | Any sequence of like/dislike requests, including ones for missing threads, keeps every thread consistent. |
| Votes.NewThreadConsistent | quad/colleges/models.py:48 | A new thread has score 0 and no rows, and is consistent. |
| Cookies.Scan | quad/templates/forum/like.js:51-58 | The loop returns null exactly when no entry from the start index matches. Otherwise it returns the value of the first matching entry. |
| Cookies.GetCookie | quad/templates/forum/like.js:47-61 | An empty cookie string gives null. Null comes back exactly when no trimmed `;`-separated entry matches. Otherwise the value is the decoded remainder of the first matching entry. |
| Cookies.EntryMatchesIffPrefix | quad/templates/forum/like.js:54 | The `substring(0, name.length + 1) === name + '='` test is exactly "the entry starts with `name=`", also for entries shorter than that. |
| Cookies.EntryValueIsRemainder | quad/templates/forum/like.js:55 | For the entry `name=value`, the value is the decoded `value`, including any further `=` characters. |
| Cookies.MatchOnlyOnExactName | quad/templates/forum/likeComment.js:27 | For names without `=`, the entry `other=value` matches `name` if and only if the names are equal. So `csrf` does not match `csrftoken=…`. |
| Cookies.EmptyCookieNeverMatches | quad/templates/forum/likeComment.js:21-22 | Without the empty-string guard, the empty cookie string would still give null. |
| Cookies.FirstEntryWins | quad/templates/forum/likeComment.js:28-29 | A matching entry decides the result, whatever entries follow it. |
| Cookies.NonMatchingEntrySkipped | quad/templates/forum/likeComment.js:23-31 | A leading entry that does not match has no effect on the result. |
| Cookies.SingleCookie | quad/templates/forum/likeComment.js:20-34 | A lone unpadded `name=value` cookie yields the decoded value. |
| Text.Split | quad/templates/forum/like.js:50 | The pieces contain no separator and, joined with the separator, give back the input. |
| Text.SplitJoin | quad/users/forms.py:25 | Separator-free pieces joined and split again come back unchanged. |
| Text.TrimOfPadded | quad/templates/forum/like.js:52 | `trim` removes surrounding whitespace exactly: whitespace + core + whitespace trims to the core, for any core without padding. |
| Text.SubstringEqualsIffPrefix | quad/templates/forum/like.js:54 | The clamped `substring(0, \|p\|)` equals `p` if and only if `p` is a prefix. |
| Text.IntDecimalRoundTrip | quad/templates/forum/score.js:18-20 | The decimal text of any integer parses back to that integer. |
| Text.ParseNatCanonical | quad/templates/forum/likeComment.js:4 | The only text that parses to `n` is the decimal text of `n`: no leading zeros, no other spelling. |
| Text.ParseIntCanonical | quad/templates/forum/score.js:18-20 | The only text that parses to `i` is the decimal text of `i`; in particular "-0" and "007" are refused. |
| Text.IntToDecimalInjective | quad/templates/forum/score.js:18-20 | Distinct integers are rendered as distinct decimal texts. |
| Display.UpdateButton | quad/templates/forum/like.js:25-28 | The class written to the button's element is one of its two classes. If the two differ, it is the active class exactly when `isActive` holds. |
| Display.UpdatePair | quad/templates/forum/like.js:18-22 | Like is styled active if and only if the status is 1, and dislike if and only if the status is -1. Each button gets one of its own two classes (the passive one when inactive), written to its own element. |
| Display.UpdateButtons | quad/templates/forum/like.js:5-23 | On the thread page, like is active if and only if the status is 1, dislike if and only if it is -1, and never both. Each class is one of that button's own two, written to `#like-button` / `#dislike-button`. |
| Display.UpdateThreadButtons | quad/templates/forum/score.js:65-70 | The same rule, each button getting one of its own two classes, written to `#like-thread-button` / `#dislike-thread-button`. |
| Display.UpdateCommentButtons | quad/templates/forum/score.js:72-79 | The same rule for the buttons of comment `pk`, each getting one of its own two classes, written to `#like-comment-button-<pk>` and `#dislike-comment-button-<pk>`. |
| Display.ButtonsShowStoredVote | quad/templates/forum/like.js:36-40 | After any request, the returned status lights like exactly for a stored upvote and dislike exactly for a stored downvote. |
| Display.UpdateScore | quad/templates/forum/score.js:86-101 | -1, 0 and 1 select the negative, neutral and positive class. Any other score selects no class. The text written reads back as the score, which by Display.ReadRepresentedCanonical makes it exactly `Score: <n>` or `<n> points` in plain decimal. |
| Display.RepresentRoundTrip | quad/templates/forum/score.js:47-49 | `Score: <n>` and `<n> points` both determine `n`. |
| Display.ReadRepresentedCanonical | quad/templates/forum/score.js:47-49 | A text that reads back as a score is exactly `Score: <n>` or `<n> points` in plain decimal, so "reads back as the score" fixes what is written. |
| Display.TwoLikesLeaveScoreUncoloured | quad/templates/forum/score.js:87-98 | Two likes on a fresh thread give a consistent score of 2. The as-written switch gives it no class, while the sign-based version gives the positive class. |
| Display.ScoreClassBySign | quad/templates/forum/score.js:88-97 | The corrected colour is positive, neutral or negative by the sign of the score, and agrees with the switch on -1, 0 and 1. |
| Display.UpdateScoreBySign | quad/templates/forum/score.js:99-100 | The corrected update always writes a class, the one the sign of the score selects, and its text reads back as the score (so it is the plain decimal text, by Display.ReadRepresentedCanonical). |
| Display.CommentSelectorsRecoverKey | quad/templates/forum/score.js:23-52 | Each per-comment id gives back its key, so distinct comments never share an element. |
| Display.CommentSelectorsDisjoint | quad/templates/forum/score.js:1-14 | Like, dislike and score ids of comments never collide with each other or with the thread's ids. |
| Display.CommentClickTargets | quad/templates/forum/likeComment.js:1-4 | Comment `id` updates `#comment-score-<id>`, the same element score.js styles, and posts to a URL from which `id` is read back, which by Display.CommentIdOfUrlCanonical makes it exactly `/colleges/comments/<id>/like`. |
| Display.CommentIdOfUrlCanonical | quad/templates/forum/likeComment.js:4 | A URL that reads back as comment `id` is exactly `/colleges/comments/<id>/like` with `id` in plain decimal. |
| Messages.LookupLevel | quad/colleges/messages.py:15-21 | A type is found exactly when it is one of the five level names, and then it names the level found. |
| Messages.LookupLevelName | quad/colleges/messages.py:16-20 | Every level is found under its own name. |
| Messages.TagsRoundTrip | quad/colleges/messages.py:23-24 | The colour can be read back out of `get_tags(color)`, so distinct colours give distinct tags. |
| Messages.Alert | quad/colleges/messages.py:26-29 | `ValueError('Incorrect message type')` is raised, with nothing dispatched, exactly for an unknown type. Otherwise there is one dispatch: the message, at the named level, tagged with that colour. |
| Messages.AlertWithDefaultType | quad/colleges/messages.py:26 | Without a type, the alert is dispatched at level success and cannot fail. |
| Messages.WrongCollegeAlert | quad/colleges/messages.py:31-37 | It cannot fail. Level warning, colour warning, fixed text. |
| Messages.FailedUpdateAlert | quad/colleges/messages.py:39-45 | It cannot fail. Level error, colour danger, and the model name is recovered from between the fixed text parts. |
| Messages.SuccessfulUpdateAlert | quad/colleges/messages.py:47-53 | It cannot fail. Level and colour success, and the text is the model name followed by ` successfully updated!`. |
| Messages.SuccessfulDeleteAlert | quad/colleges/messages.py:55-61 | It cannot fail. Level and colour success, and the text is the model name followed by ` successfully deleted!`. |
| Messages.NoPermsAlert | quad/colleges/messages.py:63-69 | It cannot fail. Level warning, colour warning, fixed text. |
| Messages.UpdateAndDeleteTextsDiffer | quad/colleges/messages.py:50-58 | For the same model name, the update and delete confirmations never read the same. |
| Signup.Domain | quad/users/forms.py:25 | A domain exists exactly when the address contains `@`. It contains no `@`. |
| Signup.Clean | quad/users/forms.py:17-32 | Each outcome is characterised exactly: a missing e-mail raises; a duplicate exactly when the address is registered; no domain exactly when a new address has no `@`; the unknown-domain error exactly when a new address's domain maps to no college. Success returns that college and the data unchanged. |
| Signup.CleanDecision | quad/users/forms.py:18-30 | The decision table: missing e-mail, then duplicate with "A user with this email already exists", then no `@`, then success with the domain's college when the domain is known and otherwise the unknown-domain error with "This email is not associated with any colleges.". |
| Signup.DomainOfAddress | quad/users/forms.py:25 | The domain of `local@domain` is `domain`. |
| Signup.DomainStopsAtSecondAt | quad/users/forms.py:25 | With several `@`, the domain is the field between the first and the second. |
| Signup.DuplicateReportedBeforeDomain | quad/users/forms.py:19-23 | A registered address is refused as a duplicate even when its domain maps to no college. |
| Signup.NewAddressAtKnownDomain | quad/users/forms.py:26-32 | A new address at a known domain succeeds with that domain's college and unchanged data. |
| Slugs.RandomString | quad/colleges/utils.py:7-8 | The result has exactly `size` characters, all from `chars`. It fails (IndexError) exactly when `size > 0` and `chars` is empty. |
| Slugs.DefaultRandomString | quad/colleges/utils.py:7 | With the defaults, the result is 10 characters from lowercase letters and digits. |
| Slugs.Suffixes | quad/colleges/utils.py:17 | One suffix per retry, each 10 characters drawn from lowercase ASCII letters and digits. |
| Slugs.FindFreeSlug | quad/colleges/utils.py:15-17 | The loop returns the first candidate not taken, which starts with the base. A base that is free is returned as is. It gives up only when every supplied candidate is taken. |
| Slugs.UniqueSlugify | quad/colleges/utils.py:12-19 | A non-empty `new_slug` is returned unchanged, whatever is taken. Otherwise a free `slugify(sluggified)` is returned as is. Any generated slug starts with it, is not taken, and is the first free candidate. |
| Slugs.CandidateShape | quad/colleges/utils.py:17 | Retry candidate `i` is the base followed by exactly one 10-character suffix of lowercase letters and digits, so suffixes never pile up. |

## Left out

- Django request handling: `login_required`, the college membership check, `render`/`redirect`, the JSON decoding of `pressed`, and `HttpResponse`. A non-boolean `pressed` and the unbound `result` on GET in `like_thread` are request-path issues and are not modelled.
- The AJAX handlers of score.js post `hasLiked` and read `data.newScore`. `like_thread` reads `pressed` and returns `votes`. That wiring, jQuery DOM writes and AJAX calls are not modelled. The model writes values instead of mutating the page.
- The ThreadVote, CommentVote and CollegeEmail model classes are not part of this model. The vote map assumes at most one ThreadVote per (voter, thread), so the `MultipleObjectsReturned` path of `.get` is not modelled (`get_like_status`'s bare `except` would turn it into 0). The domain map assumes one CollegeEmail per domain.
- Liking a comment: the view behind `/colleges/comments/<id>/like` is not part of this model. Only the URL and the element ids are modelled.
- Concurrency: `handle_thread_like` does an unlocked read-modify-write of `score`. The model treats each request as one atomic transition.
- ORM fields, cascade rules, MPTT comment ordering, URL routing, admin, the signup/activation views, and slug-on-save in models.py: these are declarations or library calls.
- Cookies.GetCookie: `decodeURIComponent` is an uninterpreted total function, so the URIError it throws on a malformed escape is not modelled.
- Slugs.UniqueSlugify: randomness is a supplied list of draws. The source loops until a free slug appears. The model returns `OutOfDraws` when the list runs out, so it does not show that the source loop terminates.
- Slugs.RandomString: `random.choice` is modelled as picking `chars[d % |chars|]` for a supplied draw `d`. Uniformity is not modelled.
- Display.UpdateScore: scores are unbounded integers rendered in plain decimal. The exponent form JavaScript uses from 10^21 up is not modelled.
- Display.UpdateButtons: the like status is an integer. Strict equality against a non-number status (always false) is not modelled separately.
- Messages.Alert: the `request` argument and Django's message storage are not modelled. A dispatch is the level, message and tags passed to Django's message function. Whether the store then keeps the message is not modelled: it drops an empty message and one whose level is below `MESSAGE_LEVEL` (INFO by default, so a `debug` alert is dropped).
- Signup.Clean: `self.college` is returned as part of the success value instead of being assigned to the form.

## Findings

| source | as written | input that shows it | evidently intended | confidence | as-written member | corrected member |
|---|---|---|---|---|---|---|
| quad/templates/forum/score.js:88-98 | `updateScore` switches on -1, 0 and 1 only and has no default. Any other score writes no class, so the element keeps its old colour. | Two users like a fresh thread. The score is 2, and the score element gets no positive class. | Colour by sign: positive above 0, neutral at 0, negative below 0. The three class names are positive/neutral/negative, and scores beyond ±1 are reachable. | medium; not executed | Display.TwoLikesLeaveScoreUncoloured | Display.UpdateScoreBySign |
