# YouTube transcript to blog post: a Dafny model of the pipeline

This project models `YT-blog/blog_gen.py`, a LangGraph workflow that works on one
state dictionary (`YouTubeBlogState`). The workflow:

- takes the video ID out of the URL;
- fetches the transcript segments and joins them with line breaks;
- asks a language model for a summary, then for a blog post;
- shows the post to a human reviewer on the console and, until the reviewer
  answers "yes", asks the model to revise the post along the reviewer's feedback.

The two external services are parameters:

- the language model (`llm.invoke`) is a function `gen: string -> string`;
- the transcript service (`YouTubeTranscriptApi.get_transcript`) is a function
  `fetch: string -> Fetched`. It gives back either the segment texts or a failure
  with its cause.

The console is a list of input lines, read in order.

Modules:

- `Wrappers` (`wrappers.dfy`): `Option` and `Result`.
- `Strings` (`strings.dfy`): the Python string operations the pipeline uses.
  These are `s.split(sep)` (cutting at the leftmost occurrence each time),
  `sep.join(parts)`, `s.strip()` (Python's whitespace set) and `s.lower()`.
  They come with the lemmas that tie them together. The predicate `Contains`
  (`sep` occurs in `s`) is what the contracts use to say what a text holds.
- `BlogGen` (`blog_gen.dfy`): the video ID, the transcript text, the three
  prompt templates (their exact text), and the approval test. It also holds the
  class `BlogState`. Each stage of the workflow is a method of that class that
  updates the dictionary's keys in place. An absent key is `None`.
- `Workflow` (`workflow.dfy`): the graph.
  - `Walk` is the reference definition of the nodes a run visits, given the
    verdicts of the reviews.
  - `Decisions` and `Feedbacks` say what the reviews read from the console.
  - `ReviewCycle` and `Run` execute the graph as a loop over the shared state.
    They are proved against `Walk` and `ReviseAll`.

Behaviour of the code that is easy to misread:

- `revise_blog` does not clear `human_feedback`. It changes only `blog_post`.
- `extract_transcript` does not signal a separate error type. On an exception it
  returns the string `"Error: " + cause` instead of the state. The model returns
  `Err("Error: " + cause)` and leaves the state as it was; `Run` then stops with
  `ExtractionFailed`.
- No stage checks that the transcript or the summary is non-empty.
- `blog_gen.py` does not catch failures of the language model. `gen` is total here (see Left out).
- `blog_gen.py` enforces no limit on the number of revision cycles.
- A short link such as `https://youtu.be/abc123` has no `v=`, so the whole URL up
  to its first `&` is taken as the video ID. The model reproduces this.

## Model

| member | source | states |
|---|---|---|
| `Strings.FindFirst` | YT-blog/blog_gen.py:26 | the index split cuts at: an occurrence of the separator with none before it; None exactly when the separator does not occur |
| `Strings.Split` | YT-blog/blog_gen.py:26 | `str.split`: at least one piece, no piece holds the separator, and joining the pieces with the separator gives the input back |
| `Strings.BeforeFirst` | YT-blog/blog_gen.py:26 | `split(sep)[0]` is a prefix without the separator, followed in the input by the separator or by nothing; the whole input when the separator is absent |
| `Strings.AfterLast` | YT-blog/blog_gen.py:26 | `split(sep)[-1]` holds no separator and is the whole input when the separator is absent |
| `Strings.AfterLastOf` | YT-blog/blog_gen.py:26 | for a two-character separator such as `v=`, the last piece of `h + sep + t` is `t` whenever `t` holds no separator |
| `Strings.BeforeFirstOf` | YT-blog/blog_gen.py:26 | for a one-character separator such as `&`, the first piece of `p + rest` is `p` when `rest` is empty or starts with the separator |
| `Strings.SplitJoin` | YT-blog/blog_gen.py:32 | joining with a one-character separator that no part holds, then splitting, gives the parts back in order |
| `Strings.StripSpec` | YT-blog/blog_gen.py:77 | `strip()` leaves no whitespace at either end and the input is the result padded with whitespace |
| `Strings.StripPadded` | YT-blog/blog_gen.py:77 | stripping any whitespace padding of a trimmed, non-empty text gives that text back |
| `Strings.LowerSpec` | YT-blog/blog_gen.py:77 | `lower()` keeps the length and maps each character on its own |
| `BlogGen.VideoId` | YT-blog/blog_gen.py:26 | the ID holds neither `&` nor `v=`; a URL without `v=` gives its text up to the first `&` |
| `BlogGen.VideoIdOf` | YT-blog/blog_gen.py:26 | `base + "v=" + id + query`, with a query that is empty or starts with `&` and has no later `v=`, gives back exactly `id` |
| `BlogGen.ShortLinkId` | YT-blog/blog_gen.py:26 | `https://youtu.be/abc123` has no `v=` and is taken whole as the ID |
| `BlogGen.WatchLinkId` | YT-blog/blog_gen.py:26 | a watch URL with a further `&t=42s` parameter gives the bare ID |
| `BlogGen.TranscriptKeepsSegments` | YT-blog/blog_gen.py:32 | when no segment holds a line break, splitting the transcript text at line breaks gives the segments back in order |
| `BlogGen.TranscriptExamples` | YT-blog/blog_gen.py:32 | `["Hello","world","today"]` gives `"Hello\nworld\ntoday"`; no segments give `""` |
| `BlogGen.SummaryPrompt` | YT-blog/blog_gen.py:45-51 | the summary prompt holds the transcript verbatim |
| `BlogGen.SummaryPromptInjective` | YT-blog/blog_gen.py:45-51 | two transcripts give the same summary prompt only if they are equal |
| `BlogGen.BlogPrompt` | YT-blog/blog_gen.py:60-67 | the drafting prompt holds the summary verbatim |
| `BlogGen.BlogPromptInjective` | YT-blog/blog_gen.py:60-67 | two summaries give the same drafting prompt only if they are equal |
| `BlogGen.FeedbackPart` | YT-blog/blog_gen.py:97-101 | the text after the post holds the feedback verbatim between double quotes |
| `BlogGen.RevisePrompt` | YT-blog/blog_gen.py:92-101 | the revision prompt holds the current post verbatim and the feedback verbatim between double quotes |
| `BlogGen.RevisePromptFeedback` | YT-blog/blog_gen.py:92-101 | for the same post, two feedback texts give the same revision prompt only if they are equal |
| `BlogGen.RevisePromptPost` | YT-blog/blog_gen.py:92-101 | for the same feedback, two posts give the same revision prompt only if they are equal |
| `BlogGen.LowerIsYes` | YT-blog/blog_gen.py:77-79 | lower-casing gives `"yes"` exactly for the eight upper/lower-case spellings of "yes" |
| `BlogGen.ApprovalMeans` | YT-blog/blog_gen.py:77-79 | a decision approves if and only if, once stripped, it is a case variant of "yes" |
| `BlogGen.ApprovalOfPadded` | YT-blog/blog_gen.py:77-79 | any case variant of "yes" with any whitespace around it approves |
| `BlogGen.ApprovalExamples` | YT-blog/blog_gen.py:77-79 | `"  YES\n"` and `"Yes"` approve |
| `BlogGen.ShortAnswerRejects` | YT-blog/blog_gen.py:77-82 | `"y"` does not approve |
| `BlogGen.LongerAnswerRejects` | YT-blog/blog_gen.py:77-82 | `"yes please"` does not approve |
| `BlogGen.BlogState.constructor` | YT-blog/blog_gen.py:14-18 | the initial state has `video_url` set and every other key absent |
| `BlogGen.BlogState.ExtractTranscript` | YT-blog/blog_gen.py:22-39 | on success only `transcript` changes: it becomes the fetched segments of `VideoId(video_url)` joined by line breaks. On failure the state is unchanged and the result is `"Error: "` followed by the cause |
| `BlogGen.BlogState.SummarizeTranscript` | YT-blog/blog_gen.py:42-55 | `summary` becomes the model's answer to the summary prompt built from the current transcript; no other key changes |
| `BlogGen.BlogState.GenerateBlog` | YT-blog/blog_gen.py:57-72 | `blog_post` becomes the model's answer to the drafting prompt built from the current summary; no other key changes |
| `BlogGen.BlogState.HumanReview` | YT-blog/blog_gen.py:74-86 | when the stripped, lower-cased decision is `"yes"`: approved, with empty feedback. Otherwise: not approved, with the next console line as feedback. `blog_post` and the other keys are unchanged in both cases, and a missing feedback line leaves the review incomplete |
| `BlogGen.BlogState.ReviseBlog` | YT-blog/blog_gen.py:88-105 | `blog_post` becomes the model's answer to the revision prompt built from the current post and feedback. The feedback, the approval flag and the earlier keys are unchanged |
| `Workflow.ShouldContinue` | YT-blog/blog_gen.py:107-116 | END if and only if the review approved, `revise_blog` if and only if it did not |
| `Workflow.Edge` | YT-blog/blog_gen.py:129-138 | every node except `human_review` and END has exactly one fixed successor. Each fixed edge moves closer to the review, and none leads back to START |
| `Workflow.Leading` | YT-blog/blog_gen.py:134-138 | the number of rejecting reviews before the first approval: all of them are rejections, and the next one, if any, approves |
| `Workflow.ReviewLoop` | YT-blog/blog_gen.py:134-138 | from the first review, the run is one (review, revise) pair per rejection before the first approval, then review and END. With no approval it stops in the review that finds the console empty |
| `Workflow.RunPrefix` | YT-blog/blog_gen.py:129-132 | every run visits START, extract, summarize and generate, in that order, before the first review |
| `Workflow.NoEndInCycles` | YT-blog/blog_gen.py:134-138 | the review/revise pairs never pass through END |
| `Workflow.EndIffApproved` | YT-blog/blog_gen.py:134-138 | the review loop reaches END if and only if some completed review approved |
| `Workflow.ReviewStep` | YT-blog/blog_gen.py:77-84 | a review reads one decision line, and one feedback line only when the decision does not approve |
| `Workflow.RejectionStep` | YT-blog/blog_gen.py:82-84 | a rejecting decision followed by its feedback line is one completed, rejecting review |
| `Workflow.ApprovedAfter` | YT-blog/blog_gen.py:77-84 | after k rejections with their feedback lines, an approving line gives k false verdicts and then true. Exactly those k feedback lines are read, and nothing after the approval is read |
| `Workflow.ExhaustedAfter` | YT-blog/blog_gen.py:77-84 | with rejections only, no review approves and every feedback line is read |
| `Workflow.TerminatesAtFirstApproval` | YT-blog/blog_gen.py:129-138 | a console that approves after k rejections makes the run visit extract, summarize and generate, then k (review, revise) pairs, then end at that approving review |
| `Workflow.StopsWithoutApproval` | YT-blog/blog_gen.py:129-138 | a console that never approves makes the run revise once per rejection and stop in a review, without reaching END |
| `Workflow.ReviewCycle` | YT-blog/blog_gen.py:125-138 | the review/revise loop visits exactly the nodes `Walk` gives for the console's verdicts and finishes if and only if one approves. The post ends as the draft revised along each feedback line in turn; URL, transcript and summary are unchanged. On finishing, the state is approved with empty feedback |
| `Workflow.Run` | YT-blog/blog_gen.py:119-141 | a failed fetch stops the run after extract, with `"Error: "` and the cause, and every key but the URL stays absent. Otherwise the run follows `Walk` from START. The transcript, summary and post are then the joined segments, the model's summary of them, and the draft revised along each feedback |

## Left out

- The language model (`llm.invoke`, `Ollama`) is the parameter `gen`. Its text cannot be specified, and its failures are not modelled: `blog_gen.py` does not catch them.
- The transcript service (`YouTubeTranscriptApi.get_transcript`) is the parameter `fetch`. Only the segment texts and a failure with its cause are modelled, not the timing fields of the segments.
- Console output (`print`) is not modelled. Console input (`input`) is the list of lines; an empty console stops the run (`InputExhausted`).
- The LangGraph `StateGraph` library is not modelled. The wiring is re-expressed as `Edge`, `ShouldContinue` and `Walk`. The library's own treatment of keys outside the declared state schema is also not modelled: `review_approved` and `human_feedback` are taken to be kept in the state, as the code intends.
- `Strings.LowerSpec`: `lower()` is modelled for the ASCII letters only. Other characters are left unchanged, whereas Python also lower-cases non-ASCII letters.
- The step limit of a compiled LangGraph graph (`recursion_limit`, 25 steps by default) is not modelled. It comes from the library, not from `blog_gen.py`, and it would stop a long review/revise loop with an error; the model lets the loop run as long as the console has input.
- The Streamlit front end `YT-blog/app.py` is not part of this model: it only draws widgets and calls the stages.
- The imports of IPython, `requests`, `json`, `os` and `urllib` are not used by the modelled logic.
