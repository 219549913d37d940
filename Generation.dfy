/** The two text-generation wrappers of the bot: `generate_content`,
    which turns the language model's reply into a post title and body,
    and `generate_comment`, which trims the reply used as a comment.
    The language-model call itself is not modelled: its outcome is an
    input. */
module Generation {
  import opened Text

  datatype Option<T> = None | Some(value: T)

  /** What a language-model call gave back: the text of the first choice,
      or an exception. A reply whose content is `None` makes the parser's
      first string method raise, so it is a `Failed` call too. */
  datatype Completion = Failed | Completed(text: string)

  const TitleLabel: string := "Title:"
  const ContentLabel: string := "Content:"

  /** A generated post: its title and its self-text. */
  datatype Draft = Draft(title: string, body: string)

  /** The parser of `generate_content`: split the reply into lines, take
      the title from the first and the body from the third onwards. */
  function ParseResponse(response: string): (d: Draft)
    ensures IsStripped(d.title) && IsStripped(d.body)
    ensures '\n' !in d.title
  {
    ParseLines(Split(response, '\n'))
  }

  /** The title is the first line, cleaned; the body is every line from
      the third on, joined again and cleaned. The second line is dropped. */
  function ParseLines(lines: seq<string>): (d: Draft)
    requires |lines| >= 1
    ensures IsStripped(d.title) && IsStripped(d.body)
    ensures '\n' !in lines[0] ==> '\n' !in d.title
  {
    Draft(CleanTitle(lines[0]), CleanBody(Join('\n', Drop(lines, 2))))
  }

  /** Every "Title:" removed, then whitespace stripped. */
  function CleanTitle(line: string): (r: string)
    ensures IsStripped(r)
    ensures '\n' !in line ==> '\n' !in r
  {
    var unlabelled := ReplaceAll(line, TitleLabel, "");
    StripKeepsChars(unlabelled, '\n');
    Strip(unlabelled)
  }

  /** Every "Content:" removed, then whitespace stripped. */
  function CleanBody(text: string): (r: string)
    ensures IsStripped(r)
    ensures text == "" ==> r == ""
  {
    assert StripStart("") == "";
    Strip(ReplaceAll(text, ContentLabel, ""))
  }

  /** `generate_content`: `None` (the source's `(None, None)`) when the
      service call raised, the parsed draft otherwise. */
  function GenerateContent(reply: Completion): (r: Option<Draft>)
    ensures r.Some? <==> reply.Completed?
    ensures r.Some? ==> r.value == ParseResponse(reply.text)
    ensures r.Some? ==> IsStripped(r.value.title) && IsStripped(r.value.body)
  {
    match reply
    case Failed => None
    case Completed(text) => Some(ParseResponse(text))
  }

  /** `generate_comment`: the reply text stripped, or `None` when the
      service call raised. */
  function GenerateComment(reply: Completion): (r: Option<string>)
    ensures r.Some? <==> reply.Completed?
    ensures r.Some? ==> r.value == Strip(reply.text)
    ensures r.Some? ==> IsStripped(r.value) && |r.value| <= |reply.text|
  {
    match reply
    case Failed => None
    case Completed(text) => Some(Strip(text))
  }

  // ---------------------------------------------------------------------
  // What the parser extracts
  // ---------------------------------------------------------------------

  /** The title is computed from the first line alone: whatever follows
      the first line break does not change it. */
  lemma TitleFromFirstLine(first: string, rest: string)
    requires '\n' !in first
    ensures ParseResponse(first + "\n" + rest).title == CleanTitle(first)
    ensures ParseResponse(first).title == CleanTitle(first)
  {
    SplitAfterLine(first, rest, '\n');
    SplitLine(first, '\n');
  }

  /** The body is computed from the text after the second line break
      alone: neither the first nor the second line contributes to it. */
  lemma BodyFromThirdLineOn(first: string, second: string, rest: string)
    requires '\n' !in first && '\n' !in second
    ensures ParseResponse(first + "\n" + second + "\n" + rest).body == CleanBody(rest)
  {
    var response := first + "\n" + second + "\n" + rest;
    assert response == first + "\n" + (second + "\n" + rest);
    SplitAfterLine(first, second + "\n" + rest, '\n');
    SplitAfterLine(second, rest, '\n');
    var lines := Split(response, '\n');
    assert lines == [first, second] + Split(rest, '\n');
    assert Drop(lines, 2) == Split(rest, '\n');
    JoinSplit(rest, '\n');
  }

  /** A reply of one or two lines parses (the parser never fails) and
      has an empty body: the second line is dropped, not taken as the
      body. */
  lemma ShortReplyHasEmptyBody(first: string, second: string)
    requires '\n' !in first && '\n' !in second
    ensures ParseResponse(first).body == ""
    ensures ParseResponse(first + "\n" + second).body == ""
  {
    SplitLine(first, '\n');
    assert Drop([first], 2) == [];
    SplitAfterLine(first, second, '\n');
    SplitLine(second, '\n');
    assert Drop([first, second], 2) == [];
  }

  /** A title line that starts with the label and has no other
      occurrence of it is cleaned to the stripped text after the label,
      which has no label left in it. */
  lemma LabelledTitle(title: string)
    requires !Contains(title, TitleLabel)
    ensures CleanTitle(TitleLabel + title) == Strip(title)
    ensures !Contains(CleanTitle(TitleLabel + title), TitleLabel)
  {
    ReplaceAtMatch(TitleLabel, title, "");
    assert "" + ReplaceAll(title, TitleLabel, "") == ReplaceAll(title, TitleLabel, "");
    StripKeepsAbsence(title, TitleLabel);
  }

  /** The same for the body and "Content:". */
  lemma LabelledBody(content: string)
    requires !Contains(content, ContentLabel)
    ensures CleanBody(ContentLabel + content) == Strip(content)
    ensures !Contains(CleanBody(ContentLabel + content), ContentLabel)
  {
    ReplaceAtMatch(ContentLabel, content, "");
    assert "" + ReplaceAll(content, ContentLabel, "") == ReplaceAll(content, ContentLabel, "");
    StripKeepsAbsence(content, ContentLabel);
  }

  /** Past its second line break, a reply is parsed line by line: the
      title from the first line, the body from the text after the
      second line break. */
  lemma FirstLineAndThirdOn(first: string, second: string, rest: string)
    requires '\n' !in first && '\n' !in second
    ensures ParseResponse(first + "\n" + second + "\n" + rest) == Draft(CleanTitle(first), CleanBody(rest))
  {
    assert first + "\n" + second + "\n" + rest == first + "\n" + (second + "\n" + rest);
    TitleFromFirstLine(first, second + "\n" + rest);
    BodyFromThirdLineOn(first, second, rest);
  }

  /** For a reply labelled as the prompt asks, with a line between title
      and content, the parser extracts exactly the stripped text after
      each label. */
  lemma LabelledReply(title: string, second: string, content: string)
    requires '\n' !in title && '\n' !in second
    requires !Contains(title, TitleLabel) && !Contains(content, ContentLabel)
    ensures ParseResponse(TitleLabel + title + "\n" + second + "\n" + ContentLabel + content)
            == Draft(Strip(title), Strip(content))
  {
    assert TitleLabel + title + "\n" + second + "\n" + ContentLabel + content
        == TitleLabel + title + "\n" + second + "\n" + (ContentLabel + content);
    LabelledLineHasNoBreak(TitleLabel, title);
    FirstLineAndThirdOn(TitleLabel + title, second, ContentLabel + content);
    LabelledTitle(title);
    LabelledBody(content);
  }

  /** When the content of a labelled reply runs over several lines, the
      content line is the dropped second line: the body is the content
      from its second line on, stripped. */
  lemma MultiLineContentReply(title: string, content: string, more: string)
    requires '\n' !in title && '\n' !in content
    requires !Contains(title, TitleLabel) && !Contains(more, ContentLabel)
    ensures ParseResponse(TitleLabel + title + "\n" + ContentLabel + content + "\n" + more)
            == Draft(Strip(title), Strip(more))
  {
    assert TitleLabel + title + "\n" + ContentLabel + content + "\n" + more
        == TitleLabel + title + "\n" + (ContentLabel + content) + "\n" + more;
    LabelledLineHasNoBreak(TitleLabel, title);
    LabelledLineHasNoBreak(ContentLabel, content);
    FirstLineAndThirdOn(TitleLabel + title, ContentLabel + content, more);
    LabelledTitle(title);
  }

  /** A label followed by a single line is a single line. */
  lemma LabelledLineHasNoBreak(tag: string, line: string)
    requires '\n' !in tag && '\n' !in line
    ensures '\n' !in tag + line
  {
  }

  /** A reply in the prompt's own two-line format ("Title: ..." then
      "Content: ..." on the next line, as in "Title: Octopi have three
      hearts\nContent: Explanation follows."): the title is extracted, but
      the content line is the dropped second line, so the body is empty. */
  lemma TwoLineLabelledReply(title: string, content: string)
    requires '\n' !in title && '\n' !in content && !Contains(title, TitleLabel)
    ensures ParseResponse(TitleLabel + title + "\n" + ContentLabel + content) == Draft(Strip(title), "")
  {
    var first, second := TitleLabel + title, ContentLabel + content;
    assert TitleLabel + title + "\n" + ContentLabel + content == first + "\n" + second;
    assert '\n' !in first && '\n' !in second;
    TitleFromFirstLine(first, second);
    ShortReplyHasEmptyBody(first, second);
    LabelledTitle(title);
  }
}
