# RedditGroqBot, modelled in Dafny

`RedditGroqBot` (2.py) is a bot that posts a generated science post to a
subreddit once a day and comments on the subreddit's newest posts with
generated comments. This project models the logic of the bot, with the
Reddit and Groq calls replaced by their outcomes, given as inputs:

- `Text.dfy` holds the Python string operations the parser relies on.
  They are `str.split`, `str.join`, list slicing `xs[n:]`, `str.replace`
  and `str.strip()` with Python's whitespace set. The substring test
  `Contains` (Python's `pat in s`) is not used by the parser. It only
  serves to state what `replace` does.
- `Generation.dfy` holds the parser of `generate_content`: title from
  the first line, body from the third line on, labels removed, whitespace
  stripped. It also holds `generate_content` and `generate_comment` as
  functions of the language model's outcome.
- `CommentSweep.dfy` holds the eligibility test `should_comment_on_post`.
  It also holds `Sweep`, the specification of one run of
  `comment_on_posts` as a function of the listed posts and their
  outcomes, and the lemmas about what a sweep does.
- `Bot.dfy` holds the class `RedditGroqBot` with its `commentedPosts`
  set. Its `CommentOnPosts` method updates the set in place in a loop and
  is proved to leave exactly the set that `Sweep` specifies. This file
  also holds `make_post`.

Each listed post is a `Step`. A step carries:

- the post's id and creation time;
- the clock reading taken when its eligibility is checked;
- the outcome of the comment generation;
- the outcome of the reply.

Any exception inside the sweep ends the whole sweep. Ids recorded before
the exception stay recorded. A reply that returns no comment object still
records the id, and the sweep then ends, because reading the comment's id
for the log raises.

The parser drops the second line of the reply. The prompt asks for
"Title: ..." and then "Content: ..." on the next line. A reply in exactly
that format therefore parses to an empty body, and `make_post` returns
false without submitting. `Generation.TwoLineLabelledReply` and
`Bot.TwoLineReplyNeverPosted` state this. The model follows the code here.
The text on the content line is only kept when some line sits between
the title line and the content line (`Generation.LabelledReply`). When
the content runs over several lines, the body is the content from its
second line on, and `make_post` posts it
(`Generation.MultiLineContentReply`, `Bot.MultiLineContentPosted`).

## Model

| member | source | states |
|---|---|---|
| Text.IsSpace | 2.py:46-47 | the characters `strip()` removes are exactly those of Python's `str.isspace()`: code points 9-13, 28-32, 0x85, 0xA0, 0x1680, 0x2000-0x200A, 0x2028, 0x2029, 0x202F, 0x205F and 0x3000 |
| Text.Split | 2.py:45 | `split` on a one-character separator gives at least one piece, and no piece contains the separator |
| Text.Join | 2.py:47 | `'\n'.join` of no pieces is empty; otherwise its length is the pieces' total length plus one separator between each pair of neighbours, it starts with the first piece, and a separator follows the first piece when there are two or more |
| Text.JoinSplit | 2.py:45-47 | joining the pieces of a split with the same separator gives back the original text |
| Text.SplitJoin | 2.py:45-47 | splitting a join of separator-free pieces gives back exactly those pieces |
| Text.SplitLine | 2.py:45 | a text without a line break splits into itself alone |
| Text.SplitAfterLine | 2.py:45 | splitting `line + "\n" + rest` gives `line` followed by the pieces of `rest` |
| Text.Drop | 2.py:47 | `lines[2:]` has the elements from index 2 on, and is empty when there are fewer than three lines |
| Text.ReplaceAll | 2.py:46-47 | `replace` leaves a text without the pattern unchanged, never lengthens it when removing, and adds no character absent from the text and replacement |
| Text.ReplaceLeftmost | 2.py:46-47 | `replace` turns the leftmost occurrence into the replacement, keeps the text before it, and goes on scanning after it, so every non-overlapping occurrence found left to right is replaced |
| Text.RemovalShortens | 2.py:46-47 | removing a pattern from a text that contains it makes the text strictly shorter |
| Text.ReplaceAtMatch | 2.py:46-47 | `replace` on a text that starts with the pattern turns that occurrence into the replacement and goes on scanning after it |
| Text.ReplaceCanSplice | 2.py:46 | removing "Title:" from "TiTitle:tle:" leaves "Title:", so the result of `replace` can still contain the label |
| Text.ContainsInSlice | 2.py:46 | an occurrence of a pattern inside a window of a text is an occurrence in the text |
| Text.StripStart | 2.py:46 | the result is no longer than the input and does not start with whitespace |
| Text.StripEnd | 2.py:46 | the result is no longer than the input, does not end with whitespace and keeps the first character |
| Text.Strip | 2.py:46-47 | `strip()` gives a text with no leading or trailing whitespace, no longer than its input |
| Text.StripWindow | 2.py:46-47 | `strip()` returns a contiguous window of its input with only whitespace cut on either side |
| Text.StripUnique | 2.py:46-47 | any window with only whitespace around it and no whitespace at its own ends is the result of `strip()` |
| Text.StripIdempotent | 2.py:46-47 | stripping twice is stripping once |
| Text.StripPadded | 2.py:46-47 | whitespace added around a text does not change its stripped form |
| Text.StripKeepsAbsence | 2.py:46-47 | stripping a text without the pattern gives a text without the pattern |
| Text.StripKeepsChars | 2.py:46 | stripping introduces no character, so a title line without a line break stays without one |
| Generation.ParseResponse | 2.py:45-47 | the parsed title and body have no surrounding whitespace and the title has no line break, for every reply text |
| Generation.ParseLines | 2.py:46-47 | title and body are stripped, and a first line without a line break gives a title without one |
| Generation.CleanTitle | 2.py:46 | the cleaned title is stripped and gains no line break |
| Generation.CleanBody | 2.py:47 | the cleaned body is stripped, and an empty body text gives an empty body |
| Generation.GenerateContent | 2.py:32-51 | a draft is returned iff the service call succeeded; it is exactly the parse of the reply text, and it is stripped |
| Generation.GenerateComment | 2.py:53-75 | a comment is returned iff the service call succeeded; it is exactly the reply text with surrounding whitespace stripped, so it has none and is no longer than the reply |
| Generation.TitleFromFirstLine | 2.py:45-46 | the title depends on the first line alone, whatever follows it |
| Generation.BodyFromThirdLineOn | 2.py:45-47 | the body is computed from the text after the second line break alone; the first two lines never contribute |
| Generation.FirstLineAndThirdOn | 2.py:45-47 | a reply with at least two line breaks parses to the cleaned first line as title and the cleaned text after the second line break as body |
| Generation.ShortReplyHasEmptyBody | 2.py:45-47 | a reply of one or two lines parses, never fails, and has an empty body |
| Generation.LabelledTitle | 2.py:46 | a "Title:"-prefixed line with no other label cleans to the stripped text after it, with no label left |
| Generation.LabelledBody | 2.py:47 | a "Content:"-prefixed text with no other label cleans to the stripped text after it, with no label left |
| Generation.LabelledReply | 2.py:34-47 | a labelled reply with a line between title and content parses to exactly the stripped labelled texts |
| Generation.TwoLineLabelledReply | 2.py:34-47 | a reply in the prompt's two-line format parses to the stripped title and an empty body |
| Generation.MultiLineContentReply | 2.py:34-47 | a labelled reply whose content runs over several lines parses to the stripped title and, as body, the stripped content after its first line; the content line itself is lost |
| CommentSweep.Eligible | 2.py:77-81 | a post is eligible iff its id is not in the set of commented posts and it was created strictly less than 86400 seconds before the clock reading |
| CommentSweep.StepEffect | 2.py:86-92 | a post is replied to iff it is eligible, its comment is truthy and the reply returns; the sweep raises before a reply iff it is eligible, its comment is truthy and the reply raises; a reply ends the sweep after recording the id iff the platform returned no comment object |
| CommentSweep.Sweep | 2.py:83-94 | a sweep never removes an id and replies at most once per listed post |
| CommentSweep.CommentedPostNotEligible | 2.py:79 | a post already commented on is not eligible, whatever its age |
| CommentSweep.OldPostNotEligible | 2.py:80 | a post created a day or more before the clock reading is not eligible, even if never commented on |
| CommentSweep.EligibilityBoundary | 2.py:80 | the age test is strict: exactly 86400 seconds old is too old, one second less is not |
| CommentSweep.SweepAddsReplied | 2.py:85-94 | the set after a sweep is the set before it plus exactly the ids replied to |
| CommentSweep.SweepRepliesOnce | 2.py:86-90 | within a sweep no id is replied to twice, even when listed twice, and no id commented on before is replied to |
| CommentSweep.SweepRepliesOnlyQualified | 2.py:86-90 | every id replied to belongs to a listed post that was young enough, had a truthy comment and whose reply returned |
| CommentSweep.SweepRepliesWhenReached | 2.py:85-90 | a step reached before any exception whose post is eligible, has a truthy comment and whose reply returns puts its id among the replies and in the set |
| CommentSweep.SweepAppend | 2.py:84-94 | a sweep over `p + q` is the sweep over `p` followed, unless it raised, by the sweep over `q`; after an exception no later post is touched |
| CommentSweep.SweepStopsAtRaise | 2.py:89-94 | when the reply at step `k` is the first exception, the set and the replies are those of the steps before `k` |
| CommentSweep.SweepStopsAfterSilentReply | 2.py:89-94 | when the step at `k` replies but gets no comment object back, its id is recorded and replied to, and the sweep ends there with nothing after `k` touched |
| CommentSweep.NoSecondReply | 2.py:79-90 | a post replied to in one sweep is never replied to in a later sweep |
| CommentSweep.OneOfThreeCommented | 2.py:83-92 | of two listed posts already commented on and one fresh post whose reply succeeds, exactly the fresh one is added |
| Bot.Newest | 2.py:85 | the listing is the first `limit` of the newest posts: exactly `limit` of them when there are more, all of them otherwise |
| Bot.RedditGroqBot.constructor | 2.py:30 | a new bot has commented on nothing |
| Bot.RedditGroqBot.ShouldCommentOnPost | 2.py:77-81 | the answer is the eligibility predicate on the bot's current set |
| Bot.RedditGroqBot.CommentOnPosts | 2.py:83-94 | the loop leaves the set exactly as `Sweep` specifies for the listing, including the early exit on an exception |
| Bot.RedditGroqBot.CommentOnNewestPosts | 2.py:83 | the sweep with the default limit of 10 |
| Bot.MakePost | 2.py:96-108 | submit is called iff generation succeeded with a non-empty title and body, with exactly the parsed draft; the result is true iff submit was called and returned |
| Bot.GenerationFailureNeverSubmits | 2.py:98-105 | a failed generation returns false without submitting |
| Bot.PostedDraftIsClean | 2.py:98-102 | a successful post has a non-empty single-line title and a non-empty body, both stripped |
| Bot.TwoLineReplyNeverPosted | 2.py:96-105 | a reply in the prompt's two-line format is never submitted and gives false |
| Bot.LabelledReplyPosted | 2.py:96-102 | a labelled reply with non-blank texts is submitted with exactly those texts stripped, and succeeds iff submit returns |
| Bot.MultiLineContentPosted | 2.py:96-102 | a labelled reply whose content runs over several lines is submitted with the stripped title and the content from its second line on as body, and succeeds iff submit returns |

## Left out

- The Reddit and Groq clients, their construction and every call to them (2.py:20-29, 38-44, 66-72, 85, 89, 100) are foreign network calls. Their outcomes are inputs: `Completion`, `ReplyOutcome`, `SubmitOutcome` and the listed posts.
- The prompt texts and model parameters (2.py:34-43, 55-71) are only passed to the service, and so are the post title and self-text given to `generate_comment`.
- Logging and its configuration (2.py:10-14 and throughout) have no effect on control flow. The one exception is the log line after a reply: it reads the comment's id, and that read raising is modelled as `ReplyReturned(None)`.
- `time.sleep` (2.py:92, 126, 129), the `schedule` loop in `main` (2.py:118-129) and `run_scheduled_post` (2.py:110-116) are left out. `run_scheduled_post` only logs the result of `make_post`, which is modelled.
- Environment and dotenv configuration (2.py:7-8, 16, 21-28) is I/O.
- Bot.RedditGroqBot.ShouldCommentOnPost: timestamps are whole seconds rather than floats, and `time.time()` is the parameter `now`, one reading per post.
- Bot.RedditGroqBot.CommentOnPosts: an exception raised by the listing itself is not modelled separately. For the set it has the same effect as a listing that ends at that point.
- Bot.MakePost: reading `submission.url` for the log after a returned submit is taken not to raise.
- Text.ReplaceAll: the pattern must be non-empty. Python's behaviour for an empty pattern is not modelled, and the bot only removes the non-empty labels "Title:" and "Content:".
- Text.ReplaceAll: only `str.replace` without a count argument is modelled, as the bot uses it.
- Characters are Unicode scalar values. Python strings can also hold lone surrogates, which a reply from the service does not contain.
