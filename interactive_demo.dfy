/** `InteractiveCarolineAgent` (interactive_demo.py): the eight-category
    keyword router `respond_to_question`, and the chat loop of `main` that
    quits on a quit word, re-prompts on a blank line and routes the rest. */
module InteractiveDemo {
  import opened Text
  import opened Router

  /** The nine fixed paragraphs `respond_to_question` can return. */
  datatype Answer = Education | Research | Industry | Technical | Leadership | Background | Future | Ai | Fallback

  const EducationWords: seq<string> := ["education", "school", "study", "degree", "harvard", "sydney"]
  const ResearchWords: seq<string> := ["research", "thesis", "cardiovascular", "transcriptomics", "modeling"]
  const IndustryWords: seq<string> := ["tencent", "industry", "work", "internship", "healthcare"]
  const TechnicalWords: seq<string> := ["programming", "technical", "skills", "python", "tensorflow", "tools"]
  const LeadershipWords: seq<string> := ["leadership", "club", "organize", "impact", "students"]
  const BackgroundWords: seq<string> := ["background", "about", "yourself", "who", "multicultural", "global"]
  const FutureWords: seq<string> := ["future", "goals", "plans", "career", "vision"]
  const AiWords: seq<string> := ["ai", "machine learning", "deep learning", "llm", "artificial intelligence"]

  /** The if/elif chain of `respond_to_question`, in its order. */
  const Table: seq<Category<Answer>> := [
    Category(EducationWords, Education),
    Category(ResearchWords, Research),
    Category(IndustryWords, Industry),
    Category(TechnicalWords, Technical),
    Category(LeadershipWords, Leadership),
    Category(BackgroundWords, Background),
    Category(FutureWords, Future),
    Category(AiWords, Ai)
  ]

  /** `respond_to_question`: a function of the question alone; the agent's
      `knowledge` dictionary is never consulted. */
  function RespondToQuestion(question: string): Answer {
    Route(Table, Fallback, question)
  }

  lemma TableHasDistinctReplies()
    ensures DistinctReplies(Table, Fallback)
  {
  }

  /** Questions that differ only in the case of ASCII letters get the same answer. */
  lemma RespondIgnoresCase(a: string, b: string)
    requires EqualIgnoringCase(a, b)
    ensures RespondToQuestion(a) == RespondToQuestion(b)
  {
    RouteIgnoresCase(Table, Fallback, a, b);
  }

  /** The answer depends only on `question.lower()`. */
  lemma RespondOfLowered(question: string)
    ensures RespondToQuestion(Lower(question)) == RespondToQuestion(question)
  {
    RouteOfLowered(Table, Fallback, question);
  }

  /** Education has top priority: an education keyword anywhere in the
      question wins over research, industry and every other keyword. */
  lemma EducationWins(question: string, k: string)
    requires k in EducationWords && Contains(Lower(question), k)
    ensures RespondToQuestion(question) == Education
  {
    var j :| 0 <= j < |EducationWords| && EducationWords[j] == k;
    assert Hits(Table[0], Lower(question));
    RouteFirstHit(Table, Fallback, question, 0);
  }

  /** `healthcare` is an industry keyword, checked before the AI category:
      a question containing it is answered by education, research or
      industry, never by the AI paragraph. */
  lemma HealthcareIsNeverAi(question: string)
    requires Contains(Lower(question), "healthcare")
    ensures RespondToQuestion(question) in {Education, Research, Industry}
  {
    assert Table[2].keywords[4] == "healthcare";
    assert Hits(Table[2], Lower(question));
    RouteNoLaterThanHit(Table, Fallback, question, 2);
    var j :| 0 <= j <= 2 && RespondToQuestion(question) == Table[j].reply;
    assert j == 0 || j == 1 || j == 2;
  }

  /** First match wins: category `i`'s answer is returned exactly when `i`
      is the earliest category with a keyword in the lower-cased question. */
  lemma RespondFirstMatch(question: string, i: int)
    requires 0 <= i < |Table|
    ensures RespondToQuestion(question) == Table[i].reply <==> FirstHit(Table, Lower(question), i)
  {
    TableHasDistinctReplies();
    RouteReplyIff(Table, Fallback, question, i);
  }

  /** The default paragraph is returned exactly when none of the eight
      keyword lists has a member in the lower-cased question. */
  lemma RespondDefault(question: string)
    ensures RespondToQuestion(question) == Fallback <==> NoHit(Table, Lower(question))
  {
    TableHasDistinctReplies();
    RouteFallbackIff(Table, Fallback, question);
  }

  lemma EmptyQuestionGetsDefault()
    ensures RespondToQuestion("") == Fallback
  {
    RouteEmpty(Table, Fallback);
  }

  // The chat loop of `main`.

  const QuitWords: seq<string> := ["quit", "exit", "bye", "goodbye"]

  /** The quit test: the whole (already stripped) line, lower-cased, is one
      of the quit words. */
  predicate IsQuit(question: string) {
    Lower(question) in QuitWords
  }

  /** What one iteration of the loop does with a line. */
  datatype Event = Reprompt | Answered(answer: Answer) | Farewell

  /** One iteration: strip the line; a quit word says farewell, a blank line
      re-prompts, anything else is routed. */
  function LineEvent(line: string): Event {
    var question := Strip(line);
    if IsQuit(question) then Farewell
    else if question == [] then Reprompt
    else Answered(RespondToQuestion(question))
  }

  /** The event each line would produce, as `step` judges it, if it were read. */
  function EventsBy(lines: seq<string>, step: string -> Event): (es: seq<Event>)
    ensures |es| == |lines|
    ensures forall j :: 0 <= j < |lines| ==> es[j] == step(lines[j])
  {
    seq(|lines|, j requires 0 <= j < |lines| => step(lines[j]))
  }

  function Events(lines: seq<string>): seq<Event> {
    EventsBy(lines, LineEvent)
  }

  /** The events up to and including the first farewell. */
  function UpToFarewell(events: seq<Event>): seq<Event> {
    if events == [] then []
    else if events[0] == Farewell then [Farewell]
    else [events[0]] + UpToFarewell(events[1..])
  }

  /** The events of a session fed `lines`: one per line read, stopping
      after the first quit line. */
  function Transcript(lines: seq<string>): seq<Event> {
    UpToFarewell(Events(lines))
  }

  /** The `while True` loop of `main`, with the body that handles one line
      given as `step`: it stops after the first farewell, or when the lines
      run out. */
  method RunLoop(lines: seq<string>, step: string -> Event) returns (events: seq<Event>)
    ensures events == UpToFarewell(EventsBy(lines, step))
  {
    ghost var all := EventsBy(lines, step);
    events := [];
    var i := 0;
    while i < |lines|
      invariant 0 <= i <= |lines|
      invariant events == all[..i]
      invariant forall j :: 0 <= j < i ==> all[j] != Farewell
    {
      var e := step(lines[i]);
      events := events + [e];
      if e == Farewell {
        UpToFirstFarewell(all, i);
        return;
      }
      i := i + 1;
    }
    assert all[..i] == all;
    UpToNoFarewell(all);
  }

  /** The chat session of `main` over the lines typed. */
  method Chat(lines: seq<string>) returns (events: seq<Event>)
    ensures events == Transcript(lines)
  {
    events := RunLoop(lines, LineEvent);
  }

  lemma {:induction false} UpToFirstFarewell(events: seq<Event>, k: int)
    requires 0 <= k < |events| && events[k] == Farewell
    requires forall j :: 0 <= j < k ==> events[j] != Farewell
    ensures UpToFarewell(events) == events[..k + 1]
    decreases k
  {
    if k > 0 {
      UpToFirstFarewell(events[1..], k - 1);
      assert events[..k + 1] == [events[0]] + events[1..][..k];
    }
  }

  lemma {:induction false} UpToNoFarewell(events: seq<Event>)
    requires forall j :: 0 <= j < |events| ==> events[j] != Farewell
    ensures UpToFarewell(events) == events
    decreases |events|
  {
    if events != [] {
      UpToNoFarewell(events[1..]);
    }
  }

  lemma {:induction false} FarewellKept(events: seq<Event>)
    ensures Farewell in UpToFarewell(events) <==> Farewell in events
    decreases |events|
  {
    if events != [] && events[0] != Farewell {
      FarewellKept(events[1..]);
      assert events == [events[0]] + events[1..];
    }
  }

  /** The session ends at the first quit line: one event per line up to it,
      the last of them the farewell, and nothing after it is read. */
  lemma TranscriptStopsAtFirstQuit(lines: seq<string>, k: int)
    requires 0 <= k < |lines| && IsQuit(Strip(lines[k]))
    requires forall j :: 0 <= j < k ==> !IsQuit(Strip(lines[j]))
    ensures |Transcript(lines)| == k + 1
    ensures Transcript(lines)[k] == Farewell
    ensures forall j :: 0 <= j < k ==> Transcript(lines)[j] == LineEvent(lines[j]) != Farewell
  {
    var es := Events(lines);
    UpToFirstFarewell(es, k);
  }

  /** Without a quit line every line is processed, and none says farewell. */
  lemma TranscriptWithoutQuit(lines: seq<string>)
    requires forall j :: 0 <= j < |lines| ==> !IsQuit(Strip(lines[j]))
    ensures |Transcript(lines)| == |lines|
    ensures forall j :: 0 <= j < |lines| ==> Transcript(lines)[j] == LineEvent(lines[j]) != Farewell
  {
    UpToNoFarewell(Events(lines));
  }

  /** The session says farewell exactly when some line is a quit line. */
  lemma SessionEndsIffQuit(lines: seq<string>)
    ensures Farewell in Transcript(lines) <==> exists j :: 0 <= j < |lines| && IsQuit(Strip(lines[j]))
  {
    var es := Events(lines);
    FarewellKept(es);
    if exists j :: 0 <= j < |lines| && IsQuit(Strip(lines[j])) {
      var j :| 0 <= j < |lines| && IsQuit(Strip(lines[j]));
      assert es[j] == Farewell;
    }
  }

  /** A blank line re-prompts: it is neither a quit nor a routed question. */
  lemma BlankLineReprompts(line: string)
    requires AllSpace(line)
    ensures LineEvent(line) == Reprompt
  {
    StripEmptyIff(line);
    assert Lower(Strip(line)) == [];
  }
}
