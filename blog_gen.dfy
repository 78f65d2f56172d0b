/**
 * The stages of the YouTube-to-blog pipeline and the record they thread:
 * transcript extraction, summarising, drafting, human review and revision.
 * The language model is the parameter `gen` (prompt to generated text) and
 * the transcript service the parameter `fetch` (video ID to segment texts).
 */
module BlogGen {
  import opened Wrappers
  import opened Strings

  // ---------------------------------------------------------------------
  // Video ID and transcript text
  // ---------------------------------------------------------------------

  /**
   * `video_url.split("v=")[-1].split("&")[0]`: the text after the last `v=`,
   * cut at the first `&`. A URL without `v=` is taken whole up to its first `&`.
   */
  function VideoId(url: string): (id: string)
    ensures !Contains(id, "&") && !Contains(id, "v=")
    ensures !Contains(url, "v=") ==> id == BeforeFirst(url, "&")
  {
    var tail := AfterLast(url, "v=");
    var id := BeforeFirst(tail, "&");
    NoneInPrefix(tail, id, "v=");
    id
  }

  /**
   * A watch URL `base + "v=" + id + query`, where the query is empty or starts
   * with `&` and holds no later `v=`, gives back exactly `id`.
   */
  lemma VideoIdOf(base: string, id: string, query: string)
    requires '&' !in id && !Contains(id + query, "v=")
    requires query == "" || query[0] == '&'
    ensures VideoId(base + "v=" + id + query) == id
  {
    assert base + "v=" + id + query == base + "v=" + (id + query);
    AfterLastOf(base, "v=", id + query);
    ContainsChar(id, '&');
    BeforeFirstOf(id, "&", query);
  }

  /** A short link has no `v=`, so the whole URL is taken as the ID. */
  lemma ShortLinkId()
    ensures VideoId("https://youtu.be/abc123") == "https://youtu.be/abc123"
  {
    var url := "https://youtu.be/abc123";
    MissingFirstChar(url, "v=");
    MissingFirstChar(url, "&");
  }

  /** A watch link with a further query parameter gives the bare ID. */
  lemma WatchLinkId()
    ensures VideoId("https://www.youtube.com/watch?v=dQw4w9WgXcQ&t=42s") == "dQw4w9WgXcQ"
  {
    var base, id, query := "https://www.youtube.com/watch?", "dQw4w9WgXcQ", "&t=42s";
    assert base + "v=" + id + query == "https://www.youtube.com/watch?v=dQw4w9WgXcQ&t=42s";
    MissingFirstChar(id + query, "v=");
    VideoIdOf(base, id, query);
  }

  /** `"\n".join(entry["text"] for entry in transcript)`. */
  function TranscriptText(texts: seq<string>): string
  {
    Join("\n", texts)
  }

  /**
   * The transcript text keeps every segment, in order: when no segment holds
   * a line break, splitting the text at line breaks gives the segments back.
   */
  lemma TranscriptKeepsSegments(texts: seq<string>)
    requires |texts| >= 1
    requires forall i :: 0 <= i < |texts| ==> '\n' !in texts[i]
    ensures Split(TranscriptText(texts), "\n") == texts
  {
    SplitJoin('\n', texts);
  }

  lemma TranscriptExamples()
    ensures TranscriptText(["Hello", "world", "today"]) == "Hello\nworld\ntoday"
    ensures TranscriptText([]) == ""
  {
  }

  /** What the transcript service answers for a video ID. */
  datatype Fetched = Segments(texts: seq<string>) | Unavailable(cause: string)

  // ---------------------------------------------------------------------
  // Prompts
  // ---------------------------------------------------------------------

  // Each template is the exact text of the f-string around its placeholder,
  // written as a concatenation of short pieces, phrase by phrase.

  const SummaryHead :=
    "\n" + "    Summarize the following YouTube transcript" + " while maintaining key insights:\n" + "\n" + "    "
  const SummaryTail :=
    "\n" + "    \n" + "    Keep it concise and structured.\n" + "    "

  const BlogHead :=
    "\n" + "    Convert the following summarized transcript" + " into a well-structured blog post:\n"
    + "    \n" + "    "
  const BlogTail :=
    "\n" + "    \n"
    + "    The blog should be engaging, informative,"
    + " and well-structured with an introduction,"
    + " key takeaways, and a conclusion. \n"
    + "    Also if any code is explained,"
    + " include in the final blog the code snippet"
    + " and explain briefly the code as well.\n"
    + "    "

  const ReviseHead :=
    "\n" + "    Here is a blog post:\n" + "\n" + "    "
  const ReviseMiddle :=
    "\n" + "\n" + "    The reviewer has given the following feedback:\n" + "    "
  const ReviseTail :=
    "\n" + "\n" + "    Please improve the blog based on this feedback.\n" + "    "

  /** `head + x + tail` holds `x` verbatim. */
  lemma EmbedsVerbatim(head: string, x: string, tail: string)
    ensures Contains(head + x + tail, x)
  {
    OccursInfix(head, x, tail);
  }

  /** Two texts framed by the same head and tail are equal only if the texts are. */
  lemma FrameInjective(head: string, x: string, y: string, tail: string)
    requires head + x + tail == head + y + tail
    ensures x == y
  {
    var p := head + x + tail;
    assert p[|head|..|head| + |x|] == x;
    assert p[|head|..|head| + |y|] == y;
  }

  /** The prompt of `summarize_transcript`. */
  function SummaryPrompt(transcript: string): (prompt: string)
    ensures Contains(prompt, transcript)
  {
    EmbedsVerbatim(SummaryHead, transcript, SummaryTail);
    SummaryHead + transcript + SummaryTail
  }

  /** The summary prompt determines the transcript it was built from. */
  lemma SummaryPromptInjective(t1: string, t2: string)
    requires SummaryPrompt(t1) == SummaryPrompt(t2)
    ensures t1 == t2
  {
    FrameInjective(SummaryHead, t1, t2, SummaryTail);
  }

  /** The prompt of `generate_blog`. */
  function BlogPrompt(summary: string): (prompt: string)
    ensures Contains(prompt, summary)
  {
    EmbedsVerbatim(BlogHead, summary, BlogTail);
    BlogHead + summary + BlogTail
  }

  /** The drafting prompt determines the summary it was built from. */
  lemma BlogPromptInjective(s1: string, s2: string)
    requires BlogPrompt(s1) == BlogPrompt(s2)
    ensures s1 == s2
  {
    FrameInjective(BlogHead, s1, s2, BlogTail);
  }

  /** The part of the `revise_blog` prompt after the post: the feedback in double quotes. */
  function FeedbackPart(feedback: string): (part: string)
    ensures Contains(part, "\"" + feedback + "\"")
  {
    EmbedsVerbatim(ReviseMiddle, "\"" + feedback + "\"", ReviseTail);
    ReviseMiddle + ("\"" + feedback + "\"") + ReviseTail
  }

  /** The prompt of `revise_blog`: the post, then the feedback in double quotes. */
  function RevisePrompt(post: string, feedback: string): (prompt: string)
    ensures Contains(prompt, post)
    ensures Contains(prompt, "\"" + feedback + "\"")
  {
    EmbedsVerbatim(ReviseHead, post, FeedbackPart(feedback));
    ContainsAfter(ReviseHead + post, FeedbackPart(feedback), "\"" + feedback + "\"");
    ReviseHead + post + FeedbackPart(feedback)
  }

  /** For a fixed post, the revision prompt determines the feedback. */
  lemma RevisePromptFeedback(post: string, f1: string, f2: string)
    requires RevisePrompt(post, f1) == RevisePrompt(post, f2)
    ensures f1 == f2
  {
    var head := ReviseHead + post;
    assert FeedbackPart(f1) == FeedbackPart(f2) by {
      FrameInjective(head, FeedbackPart(f1), FeedbackPart(f2), "");
    }
    assert forall f :: FeedbackPart(f) == (ReviseMiddle + "\"") + f + ("\"" + ReviseTail);
    FrameInjective(ReviseMiddle + "\"", f1, f2, "\"" + ReviseTail);
  }

  /** For a fixed feedback, the revision prompt determines the post. */
  lemma RevisePromptPost(p1: string, p2: string, feedback: string)
    requires RevisePrompt(p1, feedback) == RevisePrompt(p2, feedback)
    ensures p1 == p2
  {
    FrameInjective(ReviseHead, p1, p2, FeedbackPart(feedback));
  }

  // ---------------------------------------------------------------------
  // The review decision
  // ---------------------------------------------------------------------

  /** `input(...).strip().lower() == "yes"`. */
  predicate IsApproval(decision: string)
  {
    Lower(Strip(decision)) == "yes"
  }

  /** `w` is "yes" in some mix of upper and lower case. */
  predicate IsYesVariant(w: string)
  {
    |w| == 3 && w[0] in "yY" && w[1] in "eE" && w[2] in "sS"
  }

  /** Lower-casing gives "yes" exactly for the eight case variants of "yes". */
  lemma LowerIsYes(w: string)
    ensures Lower(w) == "yes" <==> IsYesVariant(w)
  {
    LowerSpec(w);
    if |w| == 3 {
      assert Lower(w) == [LowerChar(w[0]), LowerChar(w[1]), LowerChar(w[2])];
    }
  }

  /** A decision approves exactly when, stripped, it is a case variant of "yes". */
  lemma ApprovalMeans(decision: string)
    ensures IsApproval(decision) <==> IsYesVariant(Strip(decision))
  {
    LowerIsYes(Strip(decision));
  }

  /** Any case variant of "yes" approves, whatever whitespace surrounds it. */
  lemma ApprovalOfPadded(pre: string, w: string, post: string)
    requires AllSpace(pre) && AllSpace(post) && IsYesVariant(w)
    ensures IsApproval(pre + w + post)
  {
    StripPadded(pre, w, post);
    LowerIsYes(w);
  }

  lemma ApprovalExamples()
    ensures IsApproval("  YES\n") && IsApproval("Yes")
  {
    ApprovalOfPadded("  ", "YES", "\n");
    assert "  " + "YES" + "\n" == "  YES\n";
    ApprovalOfPadded("", "Yes", "");
    assert "" + "Yes" + "" == "Yes";
  }

  /** Only the full word approves: a bare "y" is a rejection. */
  lemma ShortAnswerRejects()
    ensures !IsApproval("y")
  {
    StripPadded("", "y", "");
    assert "" + "y" + "" == "y";
    ApprovalMeans("y");
  }

  lemma LongerAnswerRejects()
    ensures !IsApproval("yes please")
  {
    StripPadded("", "yes please", "");
    assert "" + "yes please" + "" == "yes please";
    ApprovalMeans("yes please");
  }

  // ---------------------------------------------------------------------
  // The pipeline state
  // ---------------------------------------------------------------------

  /** The values of all state keys at one moment; None is a key not set yet. */
  datatype Snapshot = Snapshot(
    videoUrl: string,
    transcript: Option<string>,
    summary: Option<string>,
    blogPost: Option<string>,
    reviewApproved: Option<bool>,
    humanFeedback: Option<string>)

  /**
   * The state dictionary `YouTubeBlogState`, with the two keys the review
   * adds. Each stage updates it in place.
   */
  class BlogState {
    var videoUrl: string
    var transcript: Option<string>
    var summary: Option<string>
    var blogPost: Option<string>
    var reviewApproved: Option<bool>
    var humanFeedback: Option<string>

    function Fields(): Snapshot
      reads this
    {
      Snapshot(videoUrl, transcript, summary, blogPost, reviewApproved, humanFeedback)
    }

    /** The initial state `{"video_url": url}`. */
    constructor (url: string)
      ensures Fields() == Snapshot(url, None, None, None, None, None)
    {
      videoUrl := url;
      transcript, summary, blogPost := None, None, None;
      reviewApproved, humanFeedback := None, None;
    }

    /**
     * `extract_transcript`: fetch the segments for the video ID and store
     * them joined by line breaks. When the service fails, the state is left
     * as it was and the error message "Error: <cause>" is returned instead.
     */
    method ExtractTranscript(fetch: string -> Fetched) returns (r: Result<()>)
      modifies this
      ensures var fetched := fetch(VideoId(old(videoUrl)));
              && (r.Ok? <==> fetched.Segments?)
              && (fetched.Segments? ==>
                    Fields() == old(Fields()).(transcript := Some(TranscriptText(fetched.texts))))
              && (fetched.Unavailable? ==>
                    r == Err("Error: " + fetched.cause) && Fields() == old(Fields()))
    {
      var id := VideoId(videoUrl);
      var fetched := fetch(id);
      if fetched.Unavailable? {
        return Err("Error: " + fetched.cause);
      }
      transcript := Some(TranscriptText(fetched.texts));
      r := Ok(());
    }

    /** `summarize_transcript`: ask the model to summarise the transcript. */
    method SummarizeTranscript(gen: string -> string)
      requires transcript.Some?
      modifies this
      ensures Fields() == old(Fields()).(summary := Some(gen(SummaryPrompt(old(transcript).value))))
    {
      summary := Some(gen(SummaryPrompt(transcript.value)));
    }

    /** `generate_blog`: ask the model to expand the summary into a post. */
    method GenerateBlog(gen: string -> string)
      requires summary.Some?
      modifies this
      ensures Fields() == old(Fields()).(blogPost := Some(gen(BlogPrompt(old(summary).value))))
    {
      blogPost := Some(gen(BlogPrompt(summary.value)));
    }

    /**
     * `human_review`: record the reviewer's decision. `feedback` is the next
     * console line, None when the console has none left, in which case the
     * second `input()` fails after the flag is already recorded and the
     * review does not complete.
     */
    method HumanReview(decision: string, feedback: Option<string>) returns (completed: bool)
      requires blogPost.Some?
      modifies this
      ensures completed <==> IsApproval(decision) || feedback.Some?
      ensures IsApproval(decision) ==>
                Fields() == old(Fields()).(reviewApproved := Some(true), humanFeedback := Some(""))
      ensures !IsApproval(decision) ==>
                Fields() == old(Fields()).(reviewApproved := Some(false),
                                           humanFeedback := if feedback.Some? then feedback else old(humanFeedback))
    {
      if IsApproval(decision) {
        reviewApproved := Some(true);
        humanFeedback := Some("");
        completed := true;
      } else {
        reviewApproved := Some(false);
        if feedback.None? {
          return false;
        }
        humanFeedback := feedback;
        completed := true;
      }
    }

    /**
     * `revise_blog`: ask the model to rewrite the post along the feedback.
     * Only the post changes; the feedback stays as it was.
     */
    method ReviseBlog(gen: string -> string)
      requires blogPost.Some? && humanFeedback.Some?
      modifies this
      ensures Fields() == old(Fields()).(blogPost := Some(gen(RevisePrompt(old(blogPost).value, old(humanFeedback).value))))
    {
      blogPost := Some(gen(RevisePrompt(blogPost.value, humanFeedback.value)));
    }
  }
}
