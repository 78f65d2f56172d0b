/**
 * The workflow graph: START -> extract_transcript -> summarize_transcript ->
 * generate_blog -> human_review, then from human_review either END or
 * revise_blog, and from revise_blog back to human_review. `Run` executes the
 * graph on one video URL, with the console input given as a list of lines.
 */
module Workflow {
  import opened Wrappers
  import opened Strings
  import opened BlogGen

  /** The nodes of the graph, with its START and END markers. */
  datatype Node = Start | ExtractTranscript | SummarizeTranscript | GenerateBlog | HumanReview | ReviseBlog | End

  /**
   * Distance to the review node along the fixed edges (END has none): every
   * fixed edge decreases it, so only the review loop can make a run long.
   */
  function Rank(n: Node): nat
  {
    match n
    case Start => 4
    case ExtractTranscript => 3
    case SummarizeTranscript => 2
    case GenerateBlog => 1
    case ReviseBlog => 1
    case HumanReview => 0
    case End => 0
  }

  /** The unconditional edges of the graph; human_review's edge is conditional and END has none. */
  function Edge(n: Node): (next: Option<Node>)
    ensures next.Some? <==> n != HumanReview && n != End
    ensures next.Some? ==> Rank(next.value) < Rank(n) && next.value != Start
  {
    match n
    case Start => Some(ExtractTranscript)
    case ExtractTranscript => Some(SummarizeTranscript)
    case SummarizeTranscript => Some(GenerateBlog)
    case GenerateBlog => Some(HumanReview)
    case ReviseBlog => Some(HumanReview)
    case HumanReview => None
    case End => None
  }

  /** `should_continue`: END once the review approved, revise_blog otherwise. */
  function ShouldContinue(reviewApproved: bool): (next: Node)
    ensures next == End <==> reviewApproved
    ensures next == ReviseBlog <==> !reviewApproved
  {
    if reviewApproved then End else ReviseBlog
  }

  /**
   * The nodes a run visits from `n` when the reviews that complete return
   * `verdicts` in turn (true for approved). A review with no verdict left is
   * the last node visited: the console ran out during it.
   */
  function Walk(n: Node, verdicts: seq<bool>): seq<Node>
    decreases |verdicts|, Rank(n)
  {
    match n
    case End => [End]
    case HumanReview =>
      if |verdicts| == 0 then [HumanReview]
      else [HumanReview] + Walk(ShouldContinue(verdicts[0]), verdicts[1..])
    case Start => [Start] + Walk(Edge(n).value, verdicts)
    case ExtractTranscript => [ExtractTranscript] + Walk(Edge(n).value, verdicts)
    case SummarizeTranscript => [SummarizeTranscript] + Walk(Edge(n).value, verdicts)
    case GenerateBlog => [GenerateBlog] + Walk(Edge(n).value, verdicts)
    case ReviseBlog => [ReviseBlog] + Walk(Edge(n).value, verdicts)
  }

  /** Visiting `n` and then walking on from its successor is walking from `n`. */
  lemma WalkFixed(visited: seq<Node>, n: Node, verdicts: seq<bool>)
    requires n != HumanReview && n != End
    ensures (visited + [n]) + Walk(Edge(n).value, verdicts) == visited + Walk(n, verdicts)
  {
  }

  /** The same for a review, which consumes one verdict. */
  lemma WalkReview(visited: seq<Node>, verdicts: seq<bool>)
    requires |verdicts| > 0
    ensures (visited + [HumanReview]) + Walk(ShouldContinue(verdicts[0]), verdicts[1..])
            == visited + Walk(HumanReview, verdicts)
  {
  }

  /** `k` rounds of a rejecting review followed by a revision. */
  function Cycles(k: nat): seq<Node>
  {
    if k == 0 then [] else [HumanReview, ReviseBlog] + Cycles(k - 1)
  }

  /** The number of rejections before the first approval (all of them if none approves). */
  function Leading(verdicts: seq<bool>): (k: nat)
    ensures k <= |verdicts|
    ensures forall i :: 0 <= i < k ==> !verdicts[i]
    ensures k < |verdicts| ==> verdicts[k]
  {
    if |verdicts| == 0 || verdicts[0] then 0 else 1 + Leading(verdicts[1..])
  }

  /**
   * The review loop: a revision after each rejection up to the first
   * approval, which ends the run; with no approval, the run stops in the
   * review that finds the console empty.
   */
  lemma {:induction false} ReviewLoop(verdicts: seq<bool>)
    ensures Walk(HumanReview, verdicts)
            == Cycles(Leading(verdicts))
               + (if Leading(verdicts) < |verdicts| then [HumanReview, End] else [HumanReview])
  {
    if |verdicts| > 0 && !verdicts[0] {
      ReviewLoop(verdicts[1..]);
    }
  }

  /** Every run goes through extract, summarize and generate, in that order, before the first review. */
  lemma RunPrefix(verdicts: seq<bool>)
    ensures Walk(Start, verdicts)
            == [Start, ExtractTranscript, SummarizeTranscript, GenerateBlog] + Walk(HumanReview, verdicts)
  {
    calc {
      Walk(Start, verdicts);
      [Start] + Walk(ExtractTranscript, verdicts);
      [Start] + ([ExtractTranscript] + Walk(SummarizeTranscript, verdicts));
      [Start] + ([ExtractTranscript] + ([SummarizeTranscript] + Walk(GenerateBlog, verdicts)));
      [Start] + ([ExtractTranscript] + ([SummarizeTranscript] + ([GenerateBlog] + Walk(HumanReview, verdicts))));
    }
  }

  lemma {:induction false} NoEndInCycles(k: nat)
    ensures End !in Cycles(k)
  {
    if k > 0 {
      NoEndInCycles(k - 1);
    }
  }

  /** The review loop reaches END exactly when some completed review approved. */
  lemma EndIffApproved(verdicts: seq<bool>)
    ensures End in Walk(HumanReview, verdicts) <==> true in verdicts
  {
    ReviewLoop(verdicts);
    NoEndInCycles(Leading(verdicts));
    if true in verdicts {
      var i :| 0 <= i < |verdicts| && verdicts[i];
      assert Leading(verdicts) <= i;
    }
  }

  // ---------------------------------------------------------------------
  // Reading the console
  // ---------------------------------------------------------------------

  /**
   * The verdicts of the reviews that complete on the console `lines`: each
   * review reads a decision line and, unless it approves, a feedback line.
   * Nothing after an approval is read.
   */
  function Decisions(lines: seq<string>): seq<bool>
    decreases |lines|
  {
    if |lines| == 0 then []
    else if IsApproval(lines[0]) then [true]
    else if |lines| == 1 then []
    else [false] + Decisions(lines[2..])
  }

  /** The feedback lines the completed rejecting reviews read, in order. */
  function Feedbacks(lines: seq<string>): seq<string>
    decreases |lines|
  {
    if |lines| < 2 || IsApproval(lines[0]) then []
    else [lines[1]] + Feedbacks(lines[2..])
  }

  /** What the review reading `lines[pos..]` contributes to the verdicts and the feedback. */
  lemma ReviewStep(lines: seq<string>, pos: nat)
    requires pos < |lines|
    ensures IsApproval(lines[pos]) ==>
              Decisions(lines[pos..]) == [true] && Feedbacks(lines[pos..]) == []
    ensures !IsApproval(lines[pos]) && pos + 1 == |lines| ==>
              Decisions(lines[pos..]) == [] && Feedbacks(lines[pos..]) == []
    ensures !IsApproval(lines[pos]) && pos + 1 < |lines| ==>
              && Decisions(lines[pos..]) == [false] + Decisions(lines[pos + 2..])
              && Feedbacks(lines[pos..]) == [lines[pos + 1]] + Feedbacks(lines[pos + 2..])
  {
    assert lines[pos..][0] == lines[pos];
    if pos + 1 < |lines| {
      assert lines[pos..][1] == lines[pos + 1];
      assert lines[pos..][2..] == lines[pos + 2..];
    }
  }

  /** A console holding rejection decisions, each followed by its feedback line. */
  function Rejections(decisions: seq<string>, feedbacks: seq<string>): seq<string>
    requires |decisions| == |feedbacks|
  {
    if decisions == [] then []
    else [decisions[0], feedbacks[0]] + Rejections(decisions[1..], feedbacks[1..])
  }

  /** A rejecting decision and its feedback line make one completed review. */
  lemma RejectionStep(decision: string, feedback: string, tail: seq<string>)
    requires !IsApproval(decision)
    ensures Decisions([decision, feedback] + tail) == [false] + Decisions(tail)
    ensures Feedbacks([decision, feedback] + tail) == [feedback] + Feedbacks(tail)
  {
    assert ([decision, feedback] + tail)[2..] == tail;
  }

  /**
   * After any number of rejections with their feedback, an approving line
   * completes one more review, which approves; what follows is never read.
   */
  lemma {:induction false} ApprovedAfter(decisions: seq<string>, feedbacks: seq<string>, yes: string, rest: seq<string>)
    requires |decisions| == |feedbacks|
    requires forall i :: 0 <= i < |decisions| ==> !IsApproval(decisions[i])
    requires IsApproval(yes)
    ensures var v := Decisions(Rejections(decisions, feedbacks) + [yes] + rest);
            |v| == |decisions| + 1 && v[|decisions|] && forall i :: 0 <= i < |decisions| ==> !v[i]
    ensures Feedbacks(Rejections(decisions, feedbacks) + [yes] + rest) == feedbacks
    decreases |decisions|
  {
    var lines := Rejections(decisions, feedbacks) + [yes] + rest;
    if decisions != [] {
      var tail := Rejections(decisions[1..], feedbacks[1..]) + [yes] + rest;
      assert lines == [decisions[0], feedbacks[0]] + tail;
      RejectionStep(decisions[0], feedbacks[0], tail);
      ApprovedAfter(decisions[1..], feedbacks[1..], yes, rest);
      assert feedbacks == [feedbacks[0]] + feedbacks[1..];
    } else {
      assert lines == [yes] + rest;
    }
  }

  /**
   * With rejections only, and at most one more line that is not an
   * approval, no review approves and every feedback line is read.
   */
  lemma {:induction false} ExhaustedAfter(decisions: seq<string>, feedbacks: seq<string>, last: seq<string>)
    requires |decisions| == |feedbacks|
    requires forall i :: 0 <= i < |decisions| ==> !IsApproval(decisions[i])
    requires |last| <= 1 && (last == [] || !IsApproval(last[0]))
    ensures var v := Decisions(Rejections(decisions, feedbacks) + last);
            |v| == |decisions| && forall i :: 0 <= i < |decisions| ==> !v[i]
    ensures Feedbacks(Rejections(decisions, feedbacks) + last) == feedbacks
    decreases |decisions|
  {
    var lines := Rejections(decisions, feedbacks) + last;
    if decisions != [] {
      var tail := Rejections(decisions[1..], feedbacks[1..]) + last;
      assert lines == [decisions[0], feedbacks[0]] + tail;
      RejectionStep(decisions[0], feedbacks[0], tail);
      ExhaustedAfter(decisions[1..], feedbacks[1..], last);
      assert feedbacks == [feedbacks[0]] + feedbacks[1..];
    } else {
      assert lines == last;
    }
  }

  /**
   * A console that approves after `k` rejections makes the run visit the
   * stages in order, revise exactly `k` times, and end at that review.
   */
  lemma TerminatesAtFirstApproval(decisions: seq<string>, feedbacks: seq<string>, yes: string, rest: seq<string>)
    requires |decisions| == |feedbacks|
    requires forall i :: 0 <= i < |decisions| ==> !IsApproval(decisions[i])
    requires IsApproval(yes)
    ensures Walk(Start, Decisions(Rejections(decisions, feedbacks) + [yes] + rest))
            == [Start, ExtractTranscript, SummarizeTranscript, GenerateBlog]
               + Cycles(|decisions|) + [HumanReview, End]
  {
    var v := Decisions(Rejections(decisions, feedbacks) + [yes] + rest);
    ApprovedAfter(decisions, feedbacks, yes, rest);
    RunPrefix(v);
    ReviewLoop(v);
    assert Leading(v) == |decisions|;
  }

  /** A console that never approves stops the run in a review after one revision per rejection. */
  lemma StopsWithoutApproval(decisions: seq<string>, feedbacks: seq<string>, last: seq<string>)
    requires |decisions| == |feedbacks|
    requires forall i :: 0 <= i < |decisions| ==> !IsApproval(decisions[i])
    requires |last| <= 1 && (last == [] || !IsApproval(last[0]))
    ensures Walk(Start, Decisions(Rejections(decisions, feedbacks) + last))
            == [Start, ExtractTranscript, SummarizeTranscript, GenerateBlog]
               + Cycles(|decisions|) + [HumanReview]
  {
    var v := Decisions(Rejections(decisions, feedbacks) + last);
    ExhaustedAfter(decisions, feedbacks, last);
    RunPrefix(v);
    ReviewLoop(v);
    assert Leading(v) == |decisions|;
  }

  /** The post after revising `draft` with each feedback in turn. */
  function ReviseAll(gen: string -> string, draft: string, feedbacks: seq<string>): string
    decreases |feedbacks|
  {
    if feedbacks == [] then draft
    else gen(RevisePrompt(ReviseAll(gen, draft, feedbacks[..|feedbacks| - 1]), feedbacks[|feedbacks| - 1]))
  }

  // ---------------------------------------------------------------------
  // Running the graph
  // ---------------------------------------------------------------------

  /** How a run ends: at END, on the error string of extract_transcript, or on an empty console. */
  datatype RunOutcome = Finished | ExtractionFailed(message: string) | InputExhausted

  /**
   * The review/revise cycle, from the first visit of human_review on: each
   * review reads its lines from the console, and should_continue sends a
   * rejected post to revise_blog, whose edge leads back to human_review.
   */
  method ReviewCycle(state: BlogState, gen: string -> string, lines: seq<string>)
    returns (outcome: RunOutcome, trace: seq<Node>)
    requires state.blogPost.Some?
    modifies state
    ensures outcome == Finished || outcome == InputExhausted
    ensures trace == Walk(HumanReview, Decisions(lines))
    ensures outcome == Finished <==> true in Decisions(lines)
    ensures state.videoUrl == old(state.videoUrl) && state.transcript == old(state.transcript)
    ensures state.summary == old(state.summary)
    ensures state.blogPost == Some(ReviseAll(gen, old(state.blogPost).value, Feedbacks(lines)))
    ensures outcome == Finished ==> state.reviewApproved == Some(true) && state.humanFeedback == Some("")
  {
    trace := [];
    var pos := 0;
    ghost var draft := state.blogPost.value;
    ghost var applied: seq<string> := [];
    assert lines[pos..] == lines;
    while true
      invariant 0 <= pos <= |lines|
      invariant End !in trace
      invariant trace + Walk(HumanReview, Decisions(lines[pos..])) == Walk(HumanReview, Decisions(lines))
      invariant applied + Feedbacks(lines[pos..]) == Feedbacks(lines)
      invariant state.videoUrl == old(state.videoUrl) && state.transcript == old(state.transcript)
      invariant state.summary == old(state.summary)
      invariant state.blogPost == Some(ReviseAll(gen, draft, applied))
      decreases |lines| - pos
    {
      ghost var before := trace;
      ghost var verdicts := Decisions(lines[pos..]);
      trace := trace + [HumanReview];
      if pos == |lines| {
        assert lines[pos..] == [];
        assert applied + [] == applied;
        EndIffApproved(Decisions(lines));
        return InputExhausted, trace;
      }
      ReviewStep(lines, pos);
      var feedback := if pos + 1 < |lines| then Some(lines[pos + 1]) else None;
      var completed := state.HumanReview(lines[pos], feedback);
      if !completed {
        assert Feedbacks(lines[pos..]) == [];
        assert applied + [] == applied;
        EndIffApproved(Decisions(lines));
        return InputExhausted, trace;
      }
      WalkReview(before, verdicts);
      var next := ShouldContinue(state.reviewApproved.value);
      if next == End {
        assert applied + [] == applied;
        trace := trace + [End];
        EndIffApproved(Decisions(lines));
        return Finished, trace;
      }
      ghost var feedbackLine := lines[pos + 1];
      pos := pos + 2;
      ghost var mid := trace;
      trace := trace + [ReviseBlog];
      state.ReviseBlog(gen);
      WalkFixed(mid, ReviseBlog, Decisions(lines[pos..]));
      assert applied + [feedbackLine] + Feedbacks(lines[pos..])
          == applied + ([feedbackLine] + Feedbacks(lines[pos..]));
      ghost var previous := applied;
      applied := applied + [feedbackLine];
      assert applied[..|applied| - 1] == previous;
    }
  }

  /**
   * Execute the compiled graph on the initial state `{"video_url": url}`:
   * the fixed edges from START through generate_blog, then the review cycle,
   * with the console input given as the list `lines`.
   */
  method Run(url: string, fetch: string -> Fetched, gen: string -> string, lines: seq<string>)
    returns (state: BlogState, outcome: RunOutcome, trace: seq<Node>)
    ensures fresh(state) && state.videoUrl == url
    ensures outcome.ExtractionFailed? <==> fetch(VideoId(url)).Unavailable?
    ensures fetch(VideoId(url)).Unavailable? ==>
              && outcome == ExtractionFailed("Error: " + fetch(VideoId(url)).cause)
              && trace == [Start, ExtractTranscript]
              && state.Fields() == Snapshot(url, None, None, None, None, None)
    ensures fetch(VideoId(url)).Segments? ==>
              var transcript := TranscriptText(fetch(VideoId(url)).texts);
              var summary := gen(SummaryPrompt(transcript));
              && trace == Walk(Start, Decisions(lines))
              && (outcome == Finished <==> true in Decisions(lines))
              && state.transcript == Some(transcript)
              && state.summary == Some(summary)
              && state.blogPost == Some(ReviseAll(gen, gen(BlogPrompt(summary)), Feedbacks(lines)))
    ensures outcome == Finished ==> state.reviewApproved == Some(true) && state.humanFeedback == Some("")
  {
    state := new BlogState(url);
    trace := [Start, ExtractTranscript];
    var extracted := state.ExtractTranscript(fetch);
    if extracted.Err? {
      assert fetch(VideoId(url)).Unavailable?;
      outcome := ExtractionFailed(extracted.message);
      return;
    }
    assert fetch(VideoId(url)).Segments?;
    trace := trace + [SummarizeTranscript];
    state.SummarizeTranscript(gen);
    trace := trace + [GenerateBlog];
    state.GenerateBlog(gen);
    assert trace == [Start, ExtractTranscript, SummarizeTranscript, GenerateBlog];
    var reviews;
    outcome, reviews := ReviewCycle(state, gen, lines);
    trace := trace + reviews;
    RunPrefix(Decisions(lines));
  }
}
