/** `CarolineVoiceDemo` (caroline_interactive_with_speech.py): the six-category
    keyword router `get_response`, and the conversation history that the text
    and voice interactions append to and `save_conversation` sums up. */
module VoiceDemo {
  import opened Wrappers
  import opened Text
  import opened Router

  /** The seven fixed strings `get_response` can return: five knowledge-base
      entries, the greeting and the default paragraph. */
  datatype Reply = Research | Tencent | Skills | Leadership | Background | Greeting | Fallback

  const ResearchWords: seq<string> := ["research", "thesis", "cardiovascular", "genomic"]
  const TencentWords: seq<string> := ["tencent", "internship", "industry", "healthcare ai"]
  const SkillsWords: seq<string> := ["skills", "technical", "programming", "python"]
  const LeadershipWords: seq<string> := ["leadership", "club", "mentor", "harvard chan"]
  const BackgroundWords: seq<string> := ["background", "about", "who", "sydney", "boston"]
  const GreetingWords: seq<string> := ["hello", "hi", "hey"]

  /** The if/elif chain of `get_response`, in its order. */
  const Table: seq<Category<Reply>> := [
    Category(ResearchWords, Research),
    Category(TencentWords, Tencent),
    Category(SkillsWords, Skills),
    Category(LeadershipWords, Leadership),
    Category(BackgroundWords, Background),
    Category(GreetingWords, Greeting)
  ]

  /** `get_response`: the reply for one user input. It reads no state, so it
      leaves the knowledge base and the history as they were. */
  function GetResponse(userInput: string): Reply {
    Route(Table, Fallback, userInput)
  }

  lemma TableHasDistinctReplies()
    ensures DistinctReplies(Table, Fallback)
  {
  }

  /** Inputs that differ only in the case of ASCII letters get the same reply. */
  lemma GetResponseIgnoresCase(a: string, b: string)
    requires EqualIgnoringCase(a, b)
    ensures GetResponse(a) == GetResponse(b)
  {
    RouteIgnoresCase(Table, Fallback, a, b);
  }

  /** The reply depends only on the lower-cased input. */
  lemma GetResponseOfLowered(userInput: string)
    ensures GetResponse(Lower(userInput)) == GetResponse(userInput)
  {
    RouteOfLowered(Table, Fallback, userInput);
  }

  /** A research keyword anywhere in the input wins over every other keyword. */
  lemma ResearchWins(userInput: string, k: string)
    requires k in ResearchWords && Contains(Lower(userInput), k)
    ensures GetResponse(userInput) == Research
  {
    var j :| 0 <= j < |ResearchWords| && ResearchWords[j] == k;
    assert Hits(Table[0], Lower(userInput));
    RouteFirstHit(Table, Fallback, userInput, 0);
  }

  /** First match wins: category `i`'s reply is returned exactly when `i` is
      the earliest category (research, tencent, skills, leadership,
      background, greeting) with a keyword in the lower-cased input. */
  lemma GetResponseFirstMatch(userInput: string, i: int)
    requires 0 <= i < |Table|
    ensures GetResponse(userInput) == Table[i].reply <==> FirstHit(Table, Lower(userInput), i)
  {
    TableHasDistinctReplies();
    RouteReplyIff(Table, Fallback, userInput, i);
  }

  /** The default paragraph is returned exactly when no keyword of any list
      occurs in the lower-cased input. */
  lemma GetResponseDefault(userInput: string)
    ensures GetResponse(userInput) == Fallback <==> NoHit(Table, Lower(userInput))
  {
    TableHasDistinctReplies();
    RouteFallbackIff(Table, Fallback, userInput);
  }

  lemma EmptyInputGetsDefault()
    ensures GetResponse("") == Fallback
  {
    RouteEmpty(Table, Fallback);
  }

  /** A timestamp from `datetime.now().isoformat()`, taken as given. */
  type Timestamp = string

  /** One record of `conversation_history`. Text turns have no `user_audio`. */
  datatype Turn = Turn(
    timestamp: Timestamp,
    user: string,
    caroline: Reply,
    userAudio: Option<string>,
    responseAudio: string)

  /** The `{"user": ..., "response": ...}` pair an interaction returns. */
  datatype Exchange = Exchange(user: string, response: Reply)

  /** The fields of the JSON object `save_conversation` writes. */
  datatype Summary = Summary(sessionStart: Option<Timestamp>, totalInteractions: nat, history: seq<Turn>)

  /** The record's reply is the one `get_response` gives its user text. */
  ghost predicate Answers(t: Turn) {
    t.caroline == GetResponse(t.user)
  }

  /** Appending an answered record keeps every record answered. */
  lemma AppendKeepsAnswers(history: seq<Turn>, t: Turn)
    requires forall i :: 0 <= i < |history| ==> Answers(history[i])
    requires Answers(t)
    ensures forall i :: 0 <= i < |history + [t]| ==> Answers((history + [t])[i])
  {
  }

  /** The questions choice 3 of `main` asks, in order. */
  const DemoQuestions: seq<string> := [
    "Tell me about your research",
    "What was your experience at Tencent?",
    "What are your leadership activities?"
  ]

  /** The records the demo sequence appends after `n` earlier ones: each
      question as asked (it is not stripped), its reply, no user audio, and
      audio named `demo_{length}.mp3` after the history length at that point. */
  function DemoTurns(n: nat, questions: seq<string>, stamps: seq<Timestamp>): seq<Turn>
    requires |stamps| == |questions|
  {
    seq(|questions|, i requires 0 <= i < |questions| =>
      Turn(stamps[i], questions[i], GetResponse(questions[i]), None, AudioName("demo", n + i)))
  }

  /** The demo records answer their questions, and no two of them share an
      audio file. */
  lemma DemoTurnsAnswered(n: nat, questions: seq<string>, stamps: seq<Timestamp>)
    requires |stamps| == |questions|
    ensures |DemoTurns(n, questions, stamps)| == |questions|
    ensures forall i :: 0 <= i < |questions| ==>
      Answers(DemoTurns(n, questions, stamps)[i]) && DemoTurns(n, questions, stamps)[i].user == questions[i]
    ensures forall i, j :: 0 <= i < j < |questions| ==>
      DemoTurns(n, questions, stamps)[i].responseAudio != DemoTurns(n, questions, stamps)[j].responseAudio
  {
    var ts := DemoTurns(n, questions, stamps);
    forall i, j | 0 <= i < j < |questions| ensures ts[i].responseAudio != ts[j].responseAudio {
      if ts[i].responseAudio == ts[j].responseAudio {
        AudioNameInjective("demo", n + i, n + j);
      }
    }
  }

  const UserAudioFile: string := "user_input.wav"
  const VoiceResponseFile: string := "caroline_response.mp3"

  /** The f-string `f"{prefix}_{n}.mp3"`. */
  function AudioName(prefix: string, n: nat): string {
    prefix + "_" + Decimal(n) + ".mp3"
  }

  /** Text turns name their audio after the history length, so turns logged
      at different lengths never share a file. */
  lemma AudioNameInjective(prefix: string, m: nat, n: nat)
    requires AudioName(prefix, m) == AudioName(prefix, n)
    ensures m == n
  {
    var a, b := AudioName(prefix, m), AudioName(prefix, n);
    assert a[|prefix| + 1..|a| - 4] == Decimal(m);
    assert b[|prefix| + 1..|b| - 4] == Decimal(n);
    DecimalInjective(m, n);
  }

  class CarolineVoiceDemo {
    var conversationHistory: seq<Turn>

    /** Every logged reply is the router's reply to the logged user text. */
    ghost predicate Valid()
      reads this
    {
      forall i :: 0 <= i < |conversationHistory| ==> Answers(conversationHistory[i])
    }

    constructor ()
      ensures Valid() && conversationHistory == []
    {
      conversationHistory := [];
    }

    /** `text_interaction` on one typed line: a blank line returns `None` and
        logs nothing; otherwise exactly one record is appended, holding the
        stripped line and its reply, with audio named after the old length. */
    method TextInteraction(line: string, now: Timestamp) returns (r: Option<Exchange>)
      requires Valid()
      modifies this
      ensures Valid()
      ensures AllSpace(line) ==> r == None && conversationHistory == old(conversationHistory)
      ensures !AllSpace(line) ==>
        var userInput := Strip(line);
        && r == Some(Exchange(userInput, GetResponse(userInput)))
        && conversationHistory == old(conversationHistory) + [Turn(
             now, userInput, GetResponse(userInput), None,
             AudioName("response", |old(conversationHistory)|))]
    {
      var userInput := Strip(line);
      StripEmptyIff(line);
      if userInput == [] {
        return None;
      }
      var response := GetResponse(userInput);
      var audioFile := AudioName("response", |conversationHistory|);
      AppendKeepsAnswers(conversationHistory, Turn(now, userInput, response, None, audioFile));
      conversationHistory := conversationHistory + [Turn(now, userInput, response, None, audioFile)];
      r := Some(Exchange(userInput, response));
    }

    /** `voice_interaction` given what the transcriber heard: the stripped
        transcript is routed and logged even when it is empty. */
    method VoiceInteraction(heard: string, now: Timestamp) returns (r: Exchange)
      requires Valid()
      modifies this
      ensures Valid()
      ensures r == Exchange(Strip(heard), GetResponse(Strip(heard)))
      ensures conversationHistory == old(conversationHistory) + [Turn(
                now, Strip(heard), GetResponse(Strip(heard)),
                Some(UserAudioFile), VoiceResponseFile)]
    {
      var userText := Strip(heard);
      var response := GetResponse(userText);
      AppendKeepsAnswers(conversationHistory, Turn(now, userText, response, Some(UserAudioFile), VoiceResponseFile));
      conversationHistory := conversationHistory + [Turn(now, userText, response, Some(UserAudioFile), VoiceResponseFile)];
      r := Exchange(userText, response);
    }

    /** Choice 3 of `main`: each question is routed as asked and logged with
        `demo_{length}.mp3` as its audio; `stamps` are the clock readings, one
        per question. */
    method DemoSequence(questions: seq<string>, stamps: seq<Timestamp>)
      requires Valid()
      requires |stamps| == |questions|
      modifies this
      ensures Valid()
      ensures conversationHistory ==
        old(conversationHistory) + DemoTurns(|old(conversationHistory)|, questions, stamps)
    {
      ghost var n := |conversationHistory|;
      for i := 0 to |questions|
        invariant Valid()
        invariant conversationHistory == old(conversationHistory) + DemoTurns(n, questions[..i], stamps[..i])
      {
        var response := GetResponse(questions[i]);
        var audioFile := AudioName("demo", |conversationHistory|);
        var t := Turn(stamps[i], questions[i], response, None, audioFile);
        assert DemoTurns(n, questions[..i + 1], stamps[..i + 1])
            == DemoTurns(n, questions[..i], stamps[..i]) + [t];
        AppendKeepsAnswers(conversationHistory, t);
        conversationHistory := conversationHistory + [t];
      }
      assert questions[..|questions|] == questions && stamps[..|stamps|] == stamps;
    }

    /** The summary `save_conversation` writes: the number of records, and
        the first record's timestamp or `None` for an empty history. Every
        record written answers its user text. */
    method SaveConversation() returns (s: Summary)
      requires Valid()
      ensures s.totalInteractions == |conversationHistory|
      ensures conversationHistory == [] ==> s.sessionStart == None
      ensures conversationHistory != [] ==> s.sessionStart == Some(conversationHistory[0].timestamp)
      ensures s.history == conversationHistory
      ensures forall i :: 0 <= i < |s.history| ==> Answers(s.history[i])
    {
      var start := if conversationHistory == [] then None else Some(conversationHistory[0].timestamp);
      s := Summary(start, |conversationHistory|, conversationHistory);
    }
  }
}
