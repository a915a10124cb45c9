/** The thread vote state machine of quad/colleges/views.py.

    A thread carries a denormalised integer `score` and a table of ThreadVote
    rows, at most one per (voter, thread), each with an `is_upvote` flag.
    Pressing like (`pressed == true`) or dislike (`pressed == false`) moves the
    voter's vote between three states and moves the score by -2, -1, +1 or +2.
    The property the code relies on without writing it down: the score is the
    sum of +1 per upvote and -1 per downvote. */
module Votes {

  /** Primary key of a user. */
  type VoterId = nat

  /** Primary key of a thread. */
  type ThreadId = nat

  /** A voter's vote on one thread. */
  datatype Vote = NoVote | Up | Down

  /** The ThreadVote rows of one thread, keyed by voter, valued by `is_upvote`. */
  type VoteTable = map<VoterId, bool>

  datatype Thread = Thread(votes: VoteTable, score: int)

  /** What a like/dislike request returns: the post-state and the `like_status`. */
  datatype LikeOutcome = LikeOutcome(thread: Thread, likeStatus: int)

  function VoteOf(votes: VoteTable, voter: VoterId): Vote
  {
    if voter !in votes then NoVote else if votes[voter] then Up else Down
  }

  /** Contribution of one vote to the score. */
  function Weight(v: Vote): int
  {
    match v
    case NoVote => 0
    case Up => 1
    case Down => -1
  }

  /** Reference transition, stated independently of the six code branches:
      pressing the button of the vote you already hold withdraws it; pressing
      the other button (or any button with no vote) makes that your vote. */
  function Toggle(v: Vote, pressed: bool): Vote
  {
    if v == VoteFor(pressed) then NoVote else VoteFor(pressed)
  }

  /** The vote a button stands for: like is an upvote, dislike a downvote. */
  function VoteFor(pressed: bool): Vote
  {
    if pressed then Up else Down
  }

  // ------------------------------------------------------------ score invariant

  /** Sum of +1 per upvote and -1 per downvote over the rows whose voters are in `keys`. */
  ghost function TallyOver(votes: VoteTable, keys: set<VoterId>): int
    requires keys <= votes.Keys
    decreases keys
  {
    if keys == {} then 0
    else
      var v :| v in keys;
      Weight(VoteOf(votes, v)) + TallyOver(votes, keys - {v})
  }

  ghost function Tally(votes: VoteTable): int
  {
    TallyOver(votes, votes.Keys)
  }

  /** The invariant: the denormalised score agrees with the vote rows. */
  ghost predicate Consistent(t: Thread)
  {
    t.score == Tally(t.votes)
  }

  /** Any single row can be taken out of the sum first, whichever one the
      definition happened to pick. */
  lemma {:induction false} TallyOverRemove(votes: VoteTable, keys: set<VoterId>, k: VoterId)
    requires keys <= votes.Keys
    requires k in keys
    ensures TallyOver(votes, keys) == Weight(VoteOf(votes, k)) + TallyOver(votes, keys - {k})
    decreases keys
  {
    var v :| v in keys && TallyOver(votes, keys) == Weight(VoteOf(votes, v)) + TallyOver(votes, keys - {v});
    if v != k {
      TallyOverRemove(votes, keys - {v}, k);
      TallyOverRemove(votes, keys - {k}, v);
      assert keys - {v} - {k} == keys - {k} - {v};
    }
  }

  /** The sum over a key set only reads the rows of those keys. */
  lemma {:induction false} TallyOverFrame(a: VoteTable, b: VoteTable, keys: set<VoterId>)
    requires keys <= a.Keys && keys <= b.Keys
    requires forall k :: k in keys ==> a[k] == b[k]
    ensures TallyOver(a, keys) == TallyOver(b, keys)
    decreases keys
  {
    if keys != {} {
      var v :| v in keys;
      TallyOverRemove(a, keys, v);
      TallyOverRemove(b, keys, v);
      TallyOverFrame(a, b, keys - {v});
    }
  }

  /** The score is the voter's own weight plus the weights of everybody else. */
  lemma TallySplit(votes: VoteTable, voter: VoterId)
    ensures Tally(votes) == Weight(VoteOf(votes, voter)) + TallyOver(votes - {voter}, votes.Keys - {voter})
  {
    var rest := votes - {voter};
    TallyOverFrame(votes, rest, votes.Keys - {voter});
    if voter in votes {
      TallyOverRemove(votes, votes.Keys, voter);
    } else {
      assert votes.Keys - {voter} == votes.Keys;
    }
  }

  /** Changing one voter's row moves the sum by exactly the change in that voter's weight. */
  lemma TallyLocal(before: VoteTable, after: VoteTable, voter: VoterId)
    requires after - {voter} == before - {voter}
    ensures Tally(after) - Tally(before) == Weight(VoteOf(after, voter)) - Weight(VoteOf(before, voter))
  {
    TallySplit(before, voter);
    TallySplit(after, voter);
    assert after.Keys - {voter} == (after - {voter}).Keys;
    assert before.Keys - {voter} == (before - {voter}).Keys;
  }

  /** The sum is bounded by the number of rows. */
  lemma {:induction false} TallyOverBound(votes: VoteTable, keys: set<VoterId>)
    requires keys <= votes.Keys
    ensures -|keys| <= TallyOver(votes, keys) <= |keys|
    decreases keys
  {
    if keys != {} {
      var v :| v in keys;
      TallyOverRemove(votes, keys, v);
      TallyOverBound(votes, keys - {v});
      assert |keys - {v}| == |keys| - 1;
    }
  }

  // ------------------------------------------------------------ operations

  /** `get_like_status`: 0 when the voter has no row, 1 for an upvote, -1 for a downvote. */
  function GetLikeStatus(votes: VoteTable, voter: VoterId): (status: int)
    ensures status == Weight(VoteOf(votes, voter))
    ensures status == 0 <==> voter !in votes
    ensures status == 1 <==> voter in votes && votes[voter]
    ensures status == -1 <==> voter in votes && !votes[voter]
  {
    if voter in votes then (if votes[voter] then 1 else -1) else 0
  }

  /** `handle_thread_like`, branch for branch: find the voter's row, then
      delete it, flip it, or create it, and move the score to match. */
  function HandleThreadLike(t: Thread, voter: VoterId, pressed: bool): (r: LikeOutcome)
    ensures VoteOf(r.thread.votes, voter) == Toggle(VoteOf(t.votes, voter), pressed)
    ensures r.thread.votes - {voter} == t.votes - {voter}
    ensures r.thread.score - t.score == Weight(VoteOf(r.thread.votes, voter)) - Weight(VoteOf(t.votes, voter))
    ensures r.likeStatus == GetLikeStatus(r.thread.votes, voter)
  {
    if voter in t.votes then
      if t.votes[voter] then
        if pressed then
          // upvote withdrawn: the row is deleted
          LikeOutcome(Thread(t.votes - {voter}, t.score - 1), 0)
        else
          // upvote switched to a downvote
          LikeOutcome(Thread(t.votes[voter := false], t.score - 2), -1)
      else
        if pressed then
          // downvote switched to an upvote
          LikeOutcome(Thread(t.votes[voter := true], t.score + 2), 1)
        else
          // downvote withdrawn: the row is deleted
          LikeOutcome(Thread(t.votes - {voter}, t.score + 1), 0)
    else
      var votes := t.votes[voter := pressed];
      if pressed then LikeOutcome(Thread(votes, t.score + 1), 1)
      else LikeOutcome(Thread(votes, t.score - 1), -1)
  }

  // ------------------------------------------------------------ properties

  /** The six branches, as observed from outside: the vote afterwards, the
      score change and the returned status for each (vote before, button) pair. */
  lemma TransitionTable(t: Thread, voter: VoterId, pressed: bool)
    ensures var r := HandleThreadLike(t, voter, pressed);
      && (voter !in t.votes ==>
            && r.thread.votes == t.votes[voter := pressed]
            && r.thread.score == t.score + (if pressed then 1 else -1)
            && r.likeStatus == (if pressed then 1 else -1))
      && (voter in t.votes && t.votes[voter] && pressed ==>
            && voter !in r.thread.votes && r.thread.score == t.score - 1 && r.likeStatus == 0)
      && (voter in t.votes && t.votes[voter] && !pressed ==>
            && r.thread.votes == t.votes[voter := false] && r.thread.score == t.score - 2 && r.likeStatus == -1)
      && (voter in t.votes && !t.votes[voter] && pressed ==>
            && r.thread.votes == t.votes[voter := true] && r.thread.score == t.score + 2 && r.likeStatus == 1)
      && (voter in t.votes && !t.votes[voter] && !pressed ==>
            && voter !in r.thread.votes && r.thread.score == t.score + 1 && r.likeStatus == 0)
  {
  }

  /** The score invariant is preserved by every like/dislike. */
  lemma LikePreservesConsistency(t: Thread, voter: VoterId, pressed: bool)
    requires Consistent(t)
    ensures Consistent(HandleThreadLike(t, voter, pressed).thread)
  {
    var r := HandleThreadLike(t, voter, pressed);
    TallyLocal(t.votes, r.thread.votes, voter);
  }

  /** Only the pressing voter's row changes. */
  lemma LikeTouchesOnlyVoter(t: Thread, voter: VoterId, pressed: bool, other: VoterId)
    requires other != voter
    ensures VoteOf(HandleThreadLike(t, voter, pressed).thread.votes, other) == VoteOf(t.votes, other)
  {
  }

  /** Pressing the same button twice restores the thread exactly when the
      voter did not start out holding the opposite vote. */
  lemma DoublePressRestores(t: Thread, voter: VoterId, pressed: bool)
    ensures var t2 := HandleThreadLike(HandleThreadLike(t, voter, pressed).thread, voter, pressed).thread;
      t2 == t <==> VoteOf(t.votes, voter) != VoteFor(!pressed)
  {
  }

  /** From no vote, a second press of the same button undoes the first. */
  lemma DoublePressFromNoVote(t: Thread, voter: VoterId, pressed: bool)
    requires voter !in t.votes
    ensures HandleThreadLike(HandleThreadLike(t, voter, pressed).thread, voter, pressed).thread == t
  {
  }

  /** A consistent score never exceeds the number of votes in absolute value. */
  lemma ScoreBounded(t: Thread)
    requires Consistent(t)
    ensures -|t.votes| <= t.score <= |t.votes|
  {
    TallyOverBound(t.votes, t.votes.Keys);
    assert |t.votes.Keys| == |t.votes|;
  }

  // ------------------------------------------------------------ the forum

  /** Every thread of the forum, keyed by primary key. */
  type Forum = map<ThreadId, Thread>

  ghost predicate AllConsistent(f: Forum)
  {
    forall id :: id in f ==> Consistent(f[id])
  }

  /** One like/dislike request against thread `id` of the forum: the vote lookup
      is keyed by (voter, thread), so only that thread's rows and score move. */
  function HandleForumLike(f: Forum, id: ThreadId, voter: VoterId, pressed: bool): (r: (Forum, int))
    requires id in f
    ensures r.0.Keys == f.Keys
    ensures forall other :: other in f && other != id ==> r.0[other] == f[other]
    ensures VoteOf(r.0[id].votes, voter) == Toggle(VoteOf(f[id].votes, voter), pressed)
    ensures r.0[id].votes - {voter} == f[id].votes - {voter}
    ensures r.0[id].score - f[id].score == Weight(VoteOf(r.0[id].votes, voter)) - Weight(VoteOf(f[id].votes, voter))
    ensures r.1 == GetLikeStatus(r.0[id].votes, voter)
  {
    var out := HandleThreadLike(f[id], voter, pressed);
    (f[id := out.thread], out.likeStatus)
  }

  lemma ForumLikePreservesConsistency(f: Forum, id: ThreadId, voter: VoterId, pressed: bool)
    requires id in f
    requires AllConsistent(f)
    ensures AllConsistent(HandleForumLike(f, id, voter, pressed).0)
  {
    LikePreservesConsistency(f[id], voter, pressed);
  }

  // ------------------------------------------------------------ request sequences

  datatype Press = Press(thread: ThreadId, voter: VoterId, pressed: bool)

  /** Replays requests in order; a request for a thread that does not exist is a 404 and changes nothing. */
  function Replay(f: Forum, presses: seq<Press>): (r: Forum)
    ensures r.Keys == f.Keys
    decreases |presses|
  {
    if presses == [] then f
    else
      var p := presses[0];
      var f1 := if p.thread in f then HandleForumLike(f, p.thread, p.voter, p.pressed).0 else f;
      Replay(f1, presses[1..])
  }

  /** Replaying one request is one call of the handler, or nothing for a missing thread. */
  lemma ReplaySingle(f: Forum, p: Press)
    ensures Replay(f, [p]) == if p.thread in f then HandleForumLike(f, p.thread, p.voter, p.pressed).0 else f
  {
    assert [p][1..] == [];
  }

  /** Replaying two request sequences back to back is replaying their concatenation. */
  lemma {:induction false} ReplayConcat(f: Forum, a: seq<Press>, b: seq<Press>)
    ensures Replay(f, a + b) == Replay(Replay(f, a), b)
    decreases |a|
  {
    if a == [] {
      assert a + b == b;
    } else {
      var p := a[0];
      var f1 := if p.thread in f then HandleForumLike(f, p.thread, p.voter, p.pressed).0 else f;
      assert (a + b)[0] == p;
      assert (a + b)[1..] == a[1..] + b;
      ReplayConcat(f1, a[1..], b);
    }
  }

  /** Starting from consistent threads (for instance, newly created ones with
      score 0 and no votes), every thread stays consistent under any request sequence. */
  lemma {:induction false} ReplayPreservesConsistency(f: Forum, presses: seq<Press>)
    requires AllConsistent(f)
    ensures AllConsistent(Replay(f, presses))
    decreases |presses|
  {
    if presses != [] {
      var p := presses[0];
      if p.thread in f {
        ForumLikePreservesConsistency(f, p.thread, p.voter, p.pressed);
        ReplayPreservesConsistency(HandleForumLike(f, p.thread, p.voter, p.pressed).0, presses[1..]);
      } else {
        ReplayPreservesConsistency(f, presses[1..]);
      }
    }
  }

  lemma NewThreadConsistent()
    ensures Consistent(Thread(map[], 0))
  {
  }
}
