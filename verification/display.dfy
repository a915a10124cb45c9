/** What the forum's scripts write into the page: button classes from a like
    status (quad/templates/forum/like.js and score.js), the score element's
    class and text (score.js `updateScore`), and the element ids and like URL
    built from a comment's primary key (score.js and likeComment.js).

    DOM writes are modelled as values: a `Styling` is the class written to one
    element; a `ScoreUpdate` is the class (if any) and the text written to the
    score element. */
module Display {
  import opened Results
  import opened Text
  import Votes

  // ------------------------------------------------------------ like / dislike buttons

  /** A button: the element it styles and the class for each of its two looks. */
  datatype Button = Button(selector: string, activeClass: string, passiveClass: string)

  /** The class written to one element. */
  datatype Styling = Styling(selector: string, cls: string)

  /** The two looks can be told apart, so the written class reveals the state. */
  predicate Distinguishable(b: Button)
  {
    b.activeClass != b.passiveClass
  }

  /** `updateButton(button, isActive)` (same in like.js and score.js). */
  function UpdateButton(b: Button, isActive: bool): (s: Styling)
    ensures s.selector == b.selector
    ensures s.cls == b.activeClass || s.cls == b.passiveClass
    ensures Distinguishable(b) ==> (s.cls == b.activeClass <==> isActive)
  {
    Styling(b.selector, if isActive then b.activeClass else b.passiveClass)
  }

  predicate IsActive(b: Button, s: Styling)
  {
    s.selector == b.selector && s.cls == b.activeClass
  }

  /** The shared body of `updateButtons`, `updateThreadButtons` and `updateCommentButtons`. */
  function UpdatePair(like: Button, dislike: Button, likeStatus: int): (r: (Styling, Styling))
    requires Distinguishable(like) && Distinguishable(dislike)
    ensures IsActive(like, r.0) <==> likeStatus == 1
    ensures IsActive(dislike, r.1) <==> likeStatus == -1
    ensures r.0.selector == like.selector && r.1.selector == dislike.selector
    ensures r.0.cls in {like.activeClass, like.passiveClass}
    ensures r.1.cls in {dislike.activeClass, dislike.passiveClass}
  {
    var hasLiked := likeStatus == 1;
    var hasDisliked := likeStatus == -1;
    (UpdateButton(like, hasLiked), UpdateButton(dislike, hasDisliked))
  }

  // like.js: the thread page's buttons
  const PageLikeButton := Button("#like-button", "btn btn-success", "btn btn-outline-success")
  const PageDislikeButton := Button("#dislike-button", "btn btn-danger", "btn btn-outline-danger")

  // score.js: the thread's buttons and the per-comment buttons
  const ThreadLikeButton := Button("#like-thread-button", "btn btn-success", "btn btn-outline-success")
  const ThreadDislikeButton := Button("#dislike-thread-button", "btn btn-danger", "btn btn-outline-danger")

  function LikeCommentSelector(pk: string): string { "#like-comment-button-" + pk }
  function DislikeCommentSelector(pk: string): string { "#dislike-comment-button-" + pk }
  function CommentScoreSelector(pk: string): string { "#comment-score-" + pk }

  function LikeCommentButton(pk: string): Button
  {
    Button(LikeCommentSelector(pk), "btn btn-success btn-sm", "btn btn-outline-success btn-sm")
  }

  function DislikeCommentButton(pk: string): Button
  {
    Button(DislikeCommentSelector(pk), "btn btn-danger btn-sm", "btn btn-outline-danger btn-sm")
  }

  /** like.js `updateButtons`: like is active iff the status is 1, dislike iff it is -1. */
  function UpdateButtons(likeStatus: int): (r: (Styling, Styling))
    ensures r.0.selector == PageLikeButton.selector && r.1.selector == PageDislikeButton.selector
    ensures r.0.cls in {PageLikeButton.activeClass, PageLikeButton.passiveClass}
    ensures r.1.cls in {PageDislikeButton.activeClass, PageDislikeButton.passiveClass}
    ensures IsActive(PageLikeButton, r.0) <==> likeStatus == 1
    ensures IsActive(PageDislikeButton, r.1) <==> likeStatus == -1
    ensures !(IsActive(PageLikeButton, r.0) && IsActive(PageDislikeButton, r.1))
  {
    UpdatePair(PageLikeButton, PageDislikeButton, likeStatus)
  }

  /** score.js `updateThreadButtons`. */
  function UpdateThreadButtons(likeStatus: int): (r: (Styling, Styling))
    ensures r.0.selector == ThreadLikeButton.selector && r.1.selector == ThreadDislikeButton.selector
    ensures r.0.cls in {ThreadLikeButton.activeClass, ThreadLikeButton.passiveClass}
    ensures r.1.cls in {ThreadDislikeButton.activeClass, ThreadDislikeButton.passiveClass}
    ensures IsActive(ThreadLikeButton, r.0) <==> likeStatus == 1
    ensures IsActive(ThreadDislikeButton, r.1) <==> likeStatus == -1
    ensures !(IsActive(ThreadLikeButton, r.0) && IsActive(ThreadDislikeButton, r.1))
  {
    UpdatePair(ThreadLikeButton, ThreadDislikeButton, likeStatus)
  }

  /** score.js `updateCommentButtons`: the same rule on the buttons of comment `pk`. */
  function UpdateCommentButtons(likeStatus: int, pk: string): (r: (Styling, Styling))
    ensures r.0.selector == LikeCommentSelector(pk) && r.1.selector == DislikeCommentSelector(pk)
    ensures r.0.cls in {LikeCommentButton(pk).activeClass, LikeCommentButton(pk).passiveClass}
    ensures r.1.cls in {DislikeCommentButton(pk).activeClass, DislikeCommentButton(pk).passiveClass}
    ensures IsActive(LikeCommentButton(pk), r.0) <==> likeStatus == 1
    ensures IsActive(DislikeCommentButton(pk), r.1) <==> likeStatus == -1
    ensures !(IsActive(LikeCommentButton(pk), r.0) && IsActive(DislikeCommentButton(pk), r.1))
  {
    UpdatePair(LikeCommentButton(pk), DislikeCommentButton(pk), likeStatus)
  }

  /** The buttons show the stored vote: after any like/dislike request, the
      status it returns lights the like button exactly for an upvote and the
      dislike button exactly for a downvote, and neither when the vote was withdrawn. */
  lemma ButtonsShowStoredVote(t: Votes.Thread, voter: Votes.VoterId, pressed: bool)
    ensures var out := Votes.HandleThreadLike(t, voter, pressed);
      var r := UpdateButtons(out.likeStatus);
      && (IsActive(PageLikeButton, r.0) <==> Votes.VoteOf(out.thread.votes, voter) == Votes.Up)
      && (IsActive(PageDislikeButton, r.1) <==> Votes.VoteOf(out.thread.votes, voter) == Votes.Down)
  {
  }

  // ------------------------------------------------------------ score element

  /** Which `represent` formatter a score element uses. */
  datatype ScoreStyle = ThreadStyle | CommentStyle

  datatype ScoreWidget = ScoreWidget(selector: string, positiveClass: string, neutralClass: string,
                                     negativeClass: string, style: ScoreStyle)

  const ThreadScore := ScoreWidget("#thread-score", "btn btn-success", "btn btn-secondary", "btn btn-danger", ThreadStyle)

  function CommentScore(pk: string): ScoreWidget
  {
    ScoreWidget(CommentScoreSelector(pk), "text-success", "text-secondary", "text-danger", CommentStyle)
  }

  /** The `represent` formatters: `Score: <n>` for a thread, `<n> points` for a comment. */
  function Represent(style: ScoreStyle, score: int): string
  {
    match style
    case ThreadStyle => "Score: " + IntToDecimal(score)
    case CommentStyle => IntToDecimal(score) + " points"
  }

  /** Reads a score back from the text `Represent` writes. */
  function ReadRepresented(style: ScoreStyle, text: string): Option<int>
  {
    var digits := match style
      case ThreadStyle => StripPrefix("Score: ", text)
      case CommentStyle => StripSuffix(" points", text);
    match digits
    case Some(d) => ParseInt(d)
    case None => None
  }

  /** The written class, `None` when the switch matches no case and the class is left as it was. */
  datatype ScoreUpdate = ScoreUpdate(selector: string, cls: Option<string>, html: string)

  /** score.js `updateScore`, as written: a `switch` on -1, 0 and 1 with no default. */
  function UpdateScore(w: ScoreWidget, score: int): (u: ScoreUpdate)
    ensures u.selector == w.selector
    ensures u.cls.Some? <==> -1 <= score <= 1
    ensures score == -1 ==> u.cls == Some(w.negativeClass)
    ensures score == 0 ==> u.cls == Some(w.neutralClass)
    ensures score == 1 ==> u.cls == Some(w.positiveClass)
    ensures ReadRepresented(w.style, u.html) == Some(score)
  {
    var scoreObjectClass :=
      if score == -1 then Some(w.negativeClass)
      else if score == 0 then Some(w.neutralClass)
      else if score == 1 then Some(w.positiveClass)
      else None;
    RepresentRoundTrip(w.style, score);
    ScoreUpdate(w.selector, scoreObjectClass, Represent(w.style, score))
  }

  /** The rendered score text determines the score. */
  lemma RepresentRoundTrip(style: ScoreStyle, score: int)
    ensures ReadRepresented(style, Represent(style, score)) == Some(score)
  {
    IntDecimalRoundTrip(score);
    match style
    case ThreadStyle => StripPrefixOfConcat("Score: ", IntToDecimal(score));
    case CommentStyle => StripSuffixOfConcat(" points", IntToDecimal(score));
  }

  /** Only the formatter's own text reads back: a text that reads as `score`
      is exactly `Represent(style, score)`. So "reads back as the score" fixes
      the written text, with no leading zeros and no "-0". */
  lemma ReadRepresentedCanonical(style: ScoreStyle, text: string, score: int)
    requires ReadRepresented(style, text) == Some(score)
    ensures text == Represent(style, score)
  {
    match style
    case ThreadStyle =>
      var d := StripPrefix("Score: ", text).value;
      ParseIntCanonical(d, score);
    case CommentStyle =>
      var d := StripSuffix(" points", text).value;
      ParseIntCanonical(d, score);
  }

  /** The colour `updateScore` evidently means to pick: by the sign of the score. */
  function ScoreClassBySign(w: ScoreWidget, score: int): (c: string)
    ensures score > 0 ==> c == w.positiveClass
    ensures score == 0 ==> c == w.neutralClass
    ensures score < 0 ==> c == w.negativeClass
    ensures -1 <= score <= 1 ==> Some(c) == UpdateScore(w, score).cls
  {
    if score > 0 then w.positiveClass else if score < 0 then w.negativeClass else w.neutralClass
  }

  /** Score update with the sign-based class: every score gets a class. */
  function UpdateScoreBySign(w: ScoreWidget, score: int): (u: ScoreUpdate)
    ensures u.cls.Some?
    ensures u.cls == Some(ScoreClassBySign(w, score))
    ensures ReadRepresented(w.style, u.html) == Some(score)
  {
    RepresentRoundTrip(w.style, score);
    ScoreUpdate(w.selector, Some(ScoreClassBySign(w, score)), Represent(w.style, score))
  }

  /** A thread score of 2 is reached by two likes from a fresh thread, and the
      as-written `updateScore` then leaves the score element's class untouched. */
  lemma TwoLikesLeaveScoreUncoloured()
    ensures var t1 := Votes.HandleThreadLike(Votes.Thread(map[], 0), 1, true).thread;
      var t2 := Votes.HandleThreadLike(t1, 2, true).thread;
      && t2.score == 2
      && Votes.Consistent(t2)
      && UpdateScore(ThreadScore, t2.score).cls == None
      && UpdateScoreBySign(ThreadScore, t2.score).cls == Some(ThreadScore.positiveClass)
  {
    var t0 := Votes.Thread(map[], 0);
    Votes.NewThreadConsistent();
    Votes.LikePreservesConsistency(t0, 1, true);
    var t1 := Votes.HandleThreadLike(t0, 1, true).thread;
    Votes.LikePreservesConsistency(t1, 2, true);
  }

  // ------------------------------------------------------------ comment ids and URL

  /** score.js and likeComment.js: `/colleges/comments/<pk>/like`. */
  function CommentLikeUrl(pk: string): string
  {
    "/colleges/comments/" + pk + "/like"
  }

  /** Reads a comment's primary key back out of its like URL. */
  function CommentIdOfUrl(url: string): Option<nat>
  {
    match StripPrefix("/colleges/comments/", url)
    case None => None
    case Some(rest) =>
      match StripSuffix("/like", rest)
      case None => None
      case Some(pk) => ParseNat(pk)
  }

  /** Only the canonical URL reads back: a URL that yields `id` is
      `/colleges/comments/<id in decimal>/like`, character for character. */
  lemma CommentIdOfUrlCanonical(url: string, id: nat)
    requires CommentIdOfUrl(url) == Some(id)
    ensures url == CommentLikeUrl(NatToDecimal(id))
  {
    var rest := StripPrefix("/colleges/comments/", url).value;
    var pk := StripSuffix("/like", rest).value;
    ParseNatCanonical(pk, id);
    assert url == "/colleges/comments/" + (pk + "/like");
  }

  /** The element ids built from a comment key give the key back, so distinct
      comments never share a like button, dislike button or score element. */
  lemma CommentSelectorsRecoverKey(pk: string)
    ensures StripPrefix("#like-comment-button-", LikeCommentSelector(pk)) == Some(pk)
    ensures StripPrefix("#dislike-comment-button-", DislikeCommentSelector(pk)) == Some(pk)
    ensures StripPrefix("#comment-score-", CommentScoreSelector(pk)) == Some(pk)
  {
  }

  /** The three per-comment id families never collide with each other or with the thread's ids. */
  lemma CommentSelectorsDisjoint(p: string, q: string)
    ensures LikeCommentSelector(p) != DislikeCommentSelector(q)
    ensures LikeCommentSelector(p) != CommentScoreSelector(q)
    ensures DislikeCommentSelector(p) != CommentScoreSelector(q)
    ensures LikeCommentSelector(p) !in {ThreadLikeButton.selector, ThreadDislikeButton.selector, ThreadScore.selector}
    ensures DislikeCommentSelector(p) !in {ThreadLikeButton.selector, ThreadDislikeButton.selector, ThreadScore.selector}
    ensures CommentScoreSelector(p) !in {ThreadLikeButton.selector, ThreadDislikeButton.selector, ThreadScore.selector}
  {
    assert LikeCommentSelector(p)[1] == 'l' && LikeCommentSelector(p)[6] == 'c';
    assert DislikeCommentSelector(p)[1] == 'd' && DislikeCommentSelector(p)[9] == 'c';
    assert CommentScoreSelector(p)[1] == 'c';
    assert DislikeCommentSelector(q)[1] == 'd';
    assert CommentScoreSelector(q)[1] == 'c';
    assert ThreadLikeButton.selector[6] == 't';
    assert ThreadDislikeButton.selector[1] == 'd' && ThreadDislikeButton.selector[9] == 't';
    assert ThreadScore.selector[1] == 't';
  }

  /** likeComment.js `handleCommentClick(is_like, id)`: the score element it
      updates and the URL it posts to, for a numeric comment id. */
  function CommentClickTargets(id: nat): (r: (string, string))
    ensures r.0 == CommentScore(NatToDecimal(id)).selector
    ensures StripPrefix("#comment-score-", r.0) == Some(NatToDecimal(id))
    ensures CommentIdOfUrl(r.1) == Some(id)
  {
    var pk := NatToDecimal(id);
    CommentSelectorsRecoverKey(pk);
    StripPrefixOfConcat("/colleges/comments/", pk + "/like");
    assert "/colleges/comments/" + pk + "/like" == "/colleges/comments/" + (pk + "/like");
    StripSuffixOfConcat("/like", pk);
    NatDecimalRoundTrip(id);
    (CommentScoreSelector(pk), CommentLikeUrl(pk))
  }
}
