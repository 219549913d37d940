/** The bot object: its one piece of state, the set of posts it has
    commented on, the sweep that updates that set in place, and the
    decision of the daily post. The platform and language-model calls
    are inputs: each listed post comes with the outcomes its calls have. */
module Bot {
  import opened Text
  import opened Generation
  import opened CommentSweep

  /** How many of the newest posts one sweep looks at by default. */
  const DefaultLimit: nat := 10

  /** The listing the platform returns for `limit`: the first `limit` of
      its newest posts, or all of them when there are fewer. */
  function Newest(posts: seq<Step>, limit: nat): (r: seq<Step>)
    ensures |r| == if |posts| <= limit then |posts| else limit
    ensures r == posts[..|r|]
  {
    if |posts| <= limit then posts else posts[..limit]
  }

  class RedditGroqBot {
    /** Ids of the posts commented on since the bot was created. */
    var commentedPosts: set<PostId>

    /** A new bot has commented on nothing. */
    constructor ()
      ensures commentedPosts == {}
    {
      commentedPosts := {};
    }

    /** `should_comment_on_post`, with the clock reading `now` as a
        parameter. */
    method ShouldCommentOnPost(post: Post, now: int) returns (b: bool)
      ensures b <==> Eligible(commentedPosts, post, now)
      ensures post.id in commentedPosts ==> !b
    {
      b := post.id !in commentedPosts && post.createdUtc > now - DaySeconds;
    }

    /** `comment_on_posts`: walk the listing, reply to every eligible
        post whose generated comment is truthy, and record its id once
        the reply has returned. An exception ends the sweep and keeps
        the ids recorded so far. */
    method CommentOnPosts(limit: nat, posts: seq<Step>)
      modifies this
      ensures commentedPosts == Sweep(old(commentedPosts), Newest(posts, limit)).commented
    {
      var listing := Newest(posts, limit);
      var i := 0;
      while i < |listing|
        invariant 0 <= i <= |listing|
        invariant Sweep(old(commentedPosts), listing).commented
                  == Sweep(commentedPosts, listing[i..]).commented
        decreases |listing| - i
      {
        var step := listing[i];
        assert listing[i..][0] == step && listing[i..][1..] == listing[i + 1..];
        var eligible := ShouldCommentOnPost(step.post, step.now);
        if eligible {
          var commentText := GenerateComment(step.completion);
          if commentText.Some? && commentText.value != "" {
            if step.reply.ReplyRaised? {
              return;
            }
            commentedPosts := commentedPosts + {step.post.id};
            if step.reply.comment.None? {
              // logging the returned comment's id raises
              return;
            }
          }
        }
        i := i + 1;
      }
    }

    /** The sweep with its default limit. */
    method CommentOnNewestPosts(posts: seq<Step>)
      modifies this
      ensures commentedPosts == Sweep(old(commentedPosts), Newest(posts, DefaultLimit)).commented
    {
      CommentOnPosts(DefaultLimit, posts);
    }
  }

  // ---------------------------------------------------------------------
  // The daily post
  // ---------------------------------------------------------------------

  /** What `subreddit.submit` did. */
  datatype SubmitOutcome = SubmitRaised | Submitted

  /** What `make_post` did: the draft it passed to `submit`, if it called
      it, and the value it returned. */
  datatype PostAttempt = PostAttempt(submitted: Option<Draft>, success: bool)

  /** `make_post`: generate a draft and submit it when both its title and
      its body are non-empty. */
  function MakePost(generation: Completion, submit: SubmitOutcome): (r: PostAttempt)
    ensures r.submitted.Some? <==>
              generation.Completed? && ParseResponse(generation.text).title != ""
              && ParseResponse(generation.text).body != ""
    ensures r.submitted.Some? ==> r.submitted.value == ParseResponse(generation.text)
    ensures r.success <==> r.submitted.Some? && submit == Submitted
  {
    match GenerateContent(generation)
    case None => PostAttempt(None, false)
    case Some(draft) =>
      if draft.title != "" && draft.body != "" then PostAttempt(Some(draft), submit == Submitted)
      else PostAttempt(None, false)
  }

  /** A failed generation is reported as a failure and nothing is
      submitted, whatever the platform would have done. */
  lemma GenerationFailureNeverSubmits(submit: SubmitOutcome)
    ensures MakePost(Failed, submit) == PostAttempt(None, false)
  {
  }

  /** A successful post carries a single-line title and a body, both
      non-empty and free of surrounding whitespace. */
  lemma PostedDraftIsClean(generation: Completion, submit: SubmitOutcome)
    requires MakePost(generation, submit).success
    ensures var d := MakePost(generation, submit).submitted.value;
      d.title != "" && d.body != "" && IsStripped(d.title) && IsStripped(d.body)
      && '\n' !in d.title
  {
  }

  /** A reply in the prompt's own two-line format is never posted: its
      body is empty, so `make_post` returns false without submitting. */
  lemma TwoLineReplyNeverPosted(title: string, content: string, submit: SubmitOutcome)
    requires '\n' !in title && '\n' !in content && !Contains(title, TitleLabel)
    ensures MakePost(Completed(TitleLabel + title + "\n" + ContentLabel + content), submit)
            == PostAttempt(None, false)
  {
    TwoLineLabelledReply(title, content);
  }

  /** A labelled reply with a line between title and content is posted
      with exactly the labelled texts, stripped, when both are non-blank;
      it succeeds iff the submit returns. */
  lemma LabelledReplyPosted(title: string, second: string, content: string, submit: SubmitOutcome)
    requires '\n' !in title && '\n' !in second
    requires !Contains(title, TitleLabel) && !Contains(content, ContentLabel)
    requires Strip(title) != "" && Strip(content) != ""
    ensures var r := MakePost(Completed(TitleLabel + title + "\n" + second + "\n" + ContentLabel + content), submit);
      r.submitted == Some(Draft(Strip(title), Strip(content))) && (r.success <==> submit == Submitted)
  {
    LabelledReply(title, second, content);
  }

  /** A labelled reply whose content runs over several lines is posted
      with the content from its second line on as the body: the content
      line itself is dropped. */
  lemma MultiLineContentPosted(title: string, content: string, more: string, submit: SubmitOutcome)
    requires '\n' !in title && '\n' !in content
    requires !Contains(title, TitleLabel) && !Contains(more, ContentLabel)
    requires Strip(title) != "" && Strip(more) != ""
    ensures var r := MakePost(Completed(TitleLabel + title + "\n" + ContentLabel + content + "\n" + more), submit);
      r.submitted == Some(Draft(Strip(title), Strip(more))) && (r.success <==> submit == Submitted)
  {
    MultiLineContentReply(title, content, more);
  }
}
