/** The comment sweep of the bot as a function of its inputs: which posts
    are eligible for a comment, what one step of the sweep does to the
    set of commented posts, and what a whole sweep does. The bot's
    method `CommentOnPosts` is proved against `Sweep`; the lemmas here
    state what a sweep promises. */
module CommentSweep {
  import opened Generation

  type PostId = string

  /** Posts older than this many seconds are not commented on. */
  const DaySeconds: int := 86400

  /** What the sweep reads of a post: its id and its creation time, in
      whole seconds since the epoch. */
  datatype Post = Post(id: PostId, createdUtc: int)

  /** `should_comment_on_post`: the post has not been commented on yet
      and was created strictly less than a day before `now`. */
  predicate Eligible(commented: set<PostId>, post: Post, now: int) {
    post.id !in commented && post.createdUtc > now - DaySeconds
  }

  /** What `post.reply` did: it raised, or it returned the new comment's
      id, or `None` when the platform did not return the comment. */
  datatype ReplyOutcome = ReplyRaised | ReplyReturned(comment: Option<string>)

  /** Everything the sweep sees of one listed post: the post, the clock
      reading taken by the eligibility check, the outcome of the comment
      generation and the outcome of the reply. The last two are only
      looked at when the sweep gets that far. */
  datatype Step = Step(post: Post, now: int, completion: Completion, reply: ReplyOutcome)

  /** What one step does: nothing; a reply to `id` (after which, when the
      platform returned no comment, logging its id raises and the sweep
      ends); or an exception that ends the sweep before any reply. */
  datatype Effect = Skip | Reply(id: PostId, raisedAfter: bool) | Raise

  /** The step's comment text is truthy: generation succeeded and gave a
      non-empty text. */
  predicate HasComment(step: Step) {
    var text := GenerateComment(step.completion);
    text.Some? && text.value != ""
  }

  /** One iteration of the sweep's loop. */
  function StepEffect(commented: set<PostId>, step: Step): (e: Effect)
    ensures e.Reply? ==> e.id == step.post.id && e.id !in commented
    ensures e.Reply? <==> Eligible(commented, step.post, step.now) && HasComment(step)
                          && step.reply.ReplyReturned?
    ensures e.Reply? ==> (e.raisedAfter <==> step.reply.comment.None?)
    ensures e.Raise? <==> Eligible(commented, step.post, step.now) && HasComment(step)
                          && step.reply.ReplyRaised?
  {
    if !Eligible(commented, step.post, step.now) || !HasComment(step) then Skip
    else
      match step.reply
      case ReplyRaised => Raise
      case ReplyReturned(comment) => Reply(step.post.id, comment.None?)
  }

  /** The outcome of a sweep: the new set of commented posts, the posts
      replied to in order, and whether an exception ended the sweep. */
  datatype SweepResult = SweepResult(commented: set<PostId>, replied: seq<PostId>, aborted: bool)

  /** `comment_on_posts` over the listed posts, from the set `commented`. */
  function Sweep(commented: set<PostId>, steps: seq<Step>): (r: SweepResult)
    ensures commented <= r.commented
    ensures |r.replied| <= |steps|
    decreases |steps|
  {
    if steps == [] then SweepResult(commented, [], false)
    else
      match StepEffect(commented, steps[0])
      case Skip => Sweep(commented, steps[1..])
      case Raise => SweepResult(commented, [], true)
      case Reply(id, raisedAfter) =>
        if raisedAfter then SweepResult(commented + {id}, [id], true)
        else
          var rest := Sweep(commented + {id}, steps[1..]);
          SweepResult(rest.commented, [id] + rest.replied, rest.aborted)
  }

  // ---------------------------------------------------------------------
  // Eligibility
  // ---------------------------------------------------------------------

  /** A post already commented on is never eligible, whatever its age. */
  lemma CommentedPostNotEligible(commented: set<PostId>, post: Post, now: int)
    requires post.id in commented
    ensures !Eligible(commented, post, now)
  {
  }

  /** A post created a day or more before `now` is never eligible, even
      when it has not been commented on. */
  lemma OldPostNotEligible(commented: set<PostId>, post: Post, now: int)
    requires post.createdUtc <= now - DaySeconds
    ensures !Eligible(commented, post, now)
  {
  }

  /** The cut-off is strict: a post exactly one day old is not eligible,
      one a second younger is. */
  lemma EligibilityBoundary(commented: set<PostId>, id: PostId, now: int)
    requires id !in commented
    ensures !Eligible(commented, Post(id, now - DaySeconds), now)
    ensures Eligible(commented, Post(id, now - DaySeconds + 1), now)
  {
  }

  // ---------------------------------------------------------------------
  // What a sweep does
  // ---------------------------------------------------------------------

  /** The step decided to reply to this post: it was eligible at the
      time, its comment was truthy and the reply returned. */
  predicate Qualifies(step: Step) {
    step.post.createdUtc > step.now - DaySeconds && HasComment(step) && step.reply.ReplyReturned?
  }

  /** The set after a sweep is the set before it plus exactly the posts
      replied to: it only grows, and only by successful replies. */
  lemma {:induction false} SweepAddsReplied(commented: set<PostId>, steps: seq<Step>)
    ensures Sweep(commented, steps).commented
            == commented + (set id | id in Sweep(commented, steps).replied)
    decreases |steps|
  {
    if steps != [] {
      match StepEffect(commented, steps[0])
      case Skip => SweepAddsReplied(commented, steps[1..]);
      case Raise =>
      case Reply(id, raisedAfter) =>
        if !raisedAfter {
          SweepAddsReplied(commented + {id}, steps[1..]);
        }
    }
  }

  /** No id occurs twice in `ids`. */
  predicate NoDuplicates(ids: seq<PostId>) {
    forall i, j :: 0 <= i < j < |ids| ==> ids[i] != ids[j]
  }

  /** Within one sweep each post is replied to at most once, even when
      it is listed several times, and never when it was commented on
      before the sweep. */
  lemma {:induction false} SweepRepliesOnce(commented: set<PostId>, steps: seq<Step>)
    ensures forall id :: id in Sweep(commented, steps).replied ==> id !in commented
    ensures NoDuplicates(Sweep(commented, steps).replied)
    decreases |steps|
  {
    if steps != [] {
      var r := Sweep(commented, steps);
      match StepEffect(commented, steps[0])
      case Skip =>
        assert r == Sweep(commented, steps[1..]);
        SweepRepliesOnce(commented, steps[1..]);
      case Raise =>
      case Reply(id, raisedAfter) =>
        if !raisedAfter {
          SweepRepliesOnce(commented + {id}, steps[1..]);
          var rest := Sweep(commented + {id}, steps[1..]);
          assert r.replied == [id] + rest.replied;
          forall i, j | 0 <= i < j < |r.replied| ensures r.replied[i] != r.replied[j] {
            assert r.replied[j] == rest.replied[j - 1];
            if i > 0 { assert r.replied[i] == rest.replied[i - 1]; }
          }
        }
    }
  }

  /** Some listed step for post `id` qualified for a reply. */
  predicate QualifiedIn(steps: seq<Step>, id: PostId) {
    exists k :: 0 <= k < |steps| && steps[k].post.id == id && Qualifies(steps[k])
  }

  /** Every post replied to was listed, was young enough when it was
      checked, got a truthy comment, and the reply returned. */
  lemma {:induction false} SweepRepliesOnlyQualified(commented: set<PostId>, steps: seq<Step>)
    ensures forall id :: id in Sweep(commented, steps).replied ==> QualifiedIn(steps, id)
    decreases |steps|
  {
    if steps != [] {
      match StepEffect(commented, steps[0])
      case Skip =>
        SweepRepliesOnlyQualified(commented, steps[1..]);
        ShiftWitness(steps);
      case Raise =>
      case Reply(id, raisedAfter) =>
        assert Qualifies(steps[0]) && QualifiedIn(steps, id);
        if !raisedAfter {
          SweepRepliesOnlyQualified(commented + {id}, steps[1..]);
          ShiftWitness(steps);
        }
    }
  }

  /** A qualifying step of the tail is a qualifying step of the whole. */
  lemma ShiftWitness(steps: seq<Step>)
    requires steps != []
    ensures forall id :: QualifiedIn(steps[1..], id) ==> QualifiedIn(steps, id)
  {
    forall id | QualifiedIn(steps[1..], id) ensures QualifiedIn(steps, id) {
      var k :| 0 <= k < |steps[1..]| && steps[1..][k].post.id == id && Qualifies(steps[1..][k]);
      assert steps[k + 1] == steps[1..][k];
    }
  }

  /** The sweep of `q` after a sweep that ended with `first`: nothing
      more when `first` ended in an exception; otherwise `q` is swept
      from the set `first` left, and the replies are appended. */
  function Continue(first: SweepResult, q: seq<Step>): SweepResult {
    if first.aborted then first
    else
      var second := Sweep(first.commented, q);
      SweepResult(second.commented, first.replied + second.replied, second.aborted)
  }

  /** Sweeping `p + q` is sweeping `p` and then, unless an exception
      ended it, sweeping `q` from the set `p` left behind. In particular
      once an exception is raised no later post is touched. */
  lemma {:induction false} SweepAppend(commented: set<PostId>, p: seq<Step>, q: seq<Step>)
    ensures Sweep(commented, p + q) == Continue(Sweep(commented, p), q)
    decreases |p|
  {
    if p == [] {
      assert p + q == q;
    } else {
      assert (p + q)[0] == p[0] && (p + q)[1..] == p[1..] + q;
      match StepEffect(commented, p[0])
      case Skip => SweepAppend(commented, p[1..], q);
      case Raise =>
      case Reply(id, raisedAfter) =>
        if !raisedAfter {
          SweepAppend(commented + {id}, p[1..], q);
          AppendAfterReply(commented, p, q, id);
        }
    }
  }

  /** The step of `SweepAppend` for a first post that is replied to and
      does not end the sweep. */
  lemma AppendAfterReply(commented: set<PostId>, p: seq<Step>, q: seq<Step>, id: PostId)
    requires p != [] && StepEffect(commented, p[0]) == Reply(id, false)
    requires (p + q)[0] == p[0] && (p + q)[1..] == p[1..] + q
    requires Sweep(commented + {id}, p[1..] + q) == Continue(Sweep(commented + {id}, p[1..]), q)
    ensures Sweep(commented, p + q) == Continue(Sweep(commented, p), q)
  {
    var first := Sweep(commented + {id}, p[1..]);
    if !first.aborted {
      var second := Sweep(first.commented, q);
      assert [id] + (first.replied + second.replied) == ([id] + first.replied) + second.replied;
    }
  }

  /** A sweep whose step `k` raises before replying (the first exception)
      ends there: the set is what the steps before `k` made it, and the
      posts after `k` are not replied to. */
  lemma SweepStopsAtRaise(commented: set<PostId>, steps: seq<Step>, k: nat)
    requires k < |steps|
    requires !Sweep(commented, steps[..k]).aborted
    requires StepEffect(Sweep(commented, steps[..k]).commented, steps[k]).Raise?
    ensures Sweep(commented, steps).commented == Sweep(commented, steps[..k]).commented
    ensures Sweep(commented, steps).replied == Sweep(commented, steps[..k]).replied
    ensures Sweep(commented, steps).aborted
  {
    assert steps == steps[..k] + steps[k..];
    SweepAppend(commented, steps[..k], steps[k..]);
    assert steps[k..][0] == steps[k];
  }

  /** The converse of `SweepRepliesOnlyQualified` for one step: a step
      reached before any exception that replies puts its post among the
      replies and in the set. */
  lemma SweepRepliesWhenReached(commented: set<PostId>, steps: seq<Step>, k: nat)
    requires k < |steps|
    requires !Sweep(commented, steps[..k]).aborted
    requires StepEffect(Sweep(commented, steps[..k]).commented, steps[k]).Reply?
    ensures steps[k].post.id in Sweep(commented, steps).replied
    ensures steps[k].post.id in Sweep(commented, steps).commented
  {
    assert steps == steps[..k] + steps[k..];
    SweepAppend(commented, steps[..k], steps[k..]);
    assert steps[k..][0] == steps[k];
    SweepAddsReplied(commented, steps);
  }

  /** A sweep whose step `k` replies but gets no comment object back
      records that post and then ends: reading the comment's id for the
      log raises, so the posts after `k` are not looked at. */
  lemma SweepStopsAfterSilentReply(commented: set<PostId>, steps: seq<Step>, k: nat)
    requires k < |steps|
    requires !Sweep(commented, steps[..k]).aborted
    requires var e := StepEffect(Sweep(commented, steps[..k]).commented, steps[k]);
      e.Reply? && e.raisedAfter
    ensures var before := Sweep(commented, steps[..k]);
      Sweep(commented, steps).commented == before.commented + {steps[k].post.id}
      && Sweep(commented, steps).replied == before.replied + [steps[k].post.id]
      && Sweep(commented, steps).aborted
  {
    assert steps == steps[..k] + steps[k..];
    SweepAppend(commented, steps[..k], steps[k..]);
    assert steps[k..][0] == steps[k];
  }

  /** A post replied to in one sweep is not replied to again in a later
      sweep that starts from the set the first one left. */
  lemma NoSecondReply(commented: set<PostId>, first: seq<Step>, second: seq<Step>, id: PostId)
    requires id in Sweep(commented, first).replied
    ensures id !in Sweep(Sweep(commented, first).commented, second).replied
  {
    var after := Sweep(commented, first).commented;
    SweepAddsReplied(commented, first);
    assert id in after;
    SweepRepliesOnce(after, second);
  }

  /** Of three listed posts, two already commented on and one fresh with
      a truthy comment whose reply succeeds, exactly the fresh one is
      commented on. */
  lemma OneOfThreeCommented(commented: set<PostId>, steps: seq<Step>)
    requires |steps| == 3
    requires steps[0].post.id in commented && steps[1].post.id in commented
    requires steps[2].post.id !in commented && Qualifies(steps[2])
    requires steps[2].reply.comment.Some?
    ensures Sweep(commented, steps).replied == [steps[2].post.id]
    ensures Sweep(commented, steps).commented == commented + {steps[2].post.id}
    ensures !Sweep(commented, steps).aborted
  {
    assert steps[1..][1..] == [steps[2]];
    assert StepEffect(commented, steps[2]) == Reply(steps[2].post.id, false);
    var last := Sweep(commented + {steps[2].post.id}, []);
    assert Sweep(commented, [steps[2]]) == SweepResult(last.commented, [steps[2].post.id] + last.replied, last.aborted);
  }
}
