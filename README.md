# Caroline's keyword intent routers, in Dafny

Both demo programs of the Caroline agent answer a question the same way: they
lower-case it and walk an if/elif chain of keyword lists. The first list that
has a member occurring anywhere in the question, as a plain substring, chooses
a fixed paragraph. When no list matches, a default paragraph is returned.

- `caroline_interactive_with_speech.py` has six lists: research, Tencent,
  skills, leadership, background and greeting. Its `CarolineVoiceDemo` keeps a
  conversation history. Text and voice interactions append to that history,
  and so does the demo sequence of `main` (choice 3). `save_conversation`
  sums it up.
- `interactive_demo.py` has eight lists: education, research, industry,
  technical, leadership, background, future and AI. Its `main` loop reads
  stripped lines. It says goodbye on a quit word, re-prompts on a blank line
  and routes everything else.

The model has these modules:

- `Text` (`text.dfy`): the string primitives the code relies on.
  - `str.lower()`.
  - The `in` substring test.
  - `str.strip()`, with Python's `isspace()` set.
  - The decimal rendering of an `int` inside an f-string.
- `Router` (`router.dfy`): the shared shape of both chains. A table is an
  ordered list of categories, and each category has keywords and a reply.
  The predicates `Hits`, `FirstHit` and `NoHit` specify it independently of
  the recursive `Select`.
- `VoiceDemo` (`voice_demo.dfy`): `get_response` as a six-row table. The class
  `CarolineVoiceDemo` holds the history as a field. Its methods append to it
  as the source does, and the class invariant `Valid` keeps every record's
  reply equal to the router's reply to its user text.
- `InteractiveDemo` (`interactive_demo.dfy`): `respond_to_question` as an
  eight-row table, and the chat loop.
  - The loop is a method, proved against `Transcript`: one event per line
    read, up to and including the first farewell.
  - Lemmas about `Transcript` state when the session ends.
- `VoiceExamples`, `InteractiveExamples` and `TextExamples`: concrete inputs
  that show the substring and priority behaviour.

Replies are modelled as datatype constructors (`Research`, `Greeting`,
`Fallback`, ...) rather than as the paragraph texts.

## Model

| member | source | states |
|---|---|---|
| Text.Lower | caroline_interactive_with_speech.py:101 | `lower()` keeps the length and lower-cases each character on its own; no capital letter is left |
| Text.LowerIgnoresCase | interactive_demo.py:43 | strings that differ only in the case of letters lower-case to the same string |
| Text.LowerIdempotent | interactive_demo.py:43 | lower-casing twice is lower-casing once |
| Text.Contains | caroline_interactive_with_speech.py:104 | `word in text` holds exactly when `word` occurs in `text` at some position, with no word boundaries |
| Text.StripSpec | caroline_interactive_with_speech.py:186 | `strip()` returns a contiguous piece of its argument that neither starts nor ends with whitespace; only whitespace lies on either side of it |
| Text.Strip | caroline_interactive_with_speech.py:65 | `strip()`: the result is no longer than the line; what it keeps and drops is stated by `Text.StripSpec`, `Text.StripEmptyIff` and `Text.StripAroundWord` |
| Text.StripEmptyIff | caroline_interactive_with_speech.py:186-189 | the stripped line is empty exactly when the line is whitespace only |
| Text.StripAroundWord | interactive_demo.py:98 | stripping whitespace + word + whitespace gives the word back, whatever that whitespace is |
| Text.StripIdempotent | interactive_demo.py:98 | stripping twice is stripping once |
| Text.DecimalRoundTrip | caroline_interactive_with_speech.py:195 | reading back the digits of the f-string rendering of `n` gives `n` |
| Text.Decimal | caroline_interactive_with_speech.py:195 | `f"{n}"` for an `int` `n >= 0`: at least one digit, only digits, and no leading zero unless it is `"0"`; `Text.DecimalRoundTrip` pins the value |
| Text.DecimalInjective | caroline_interactive_with_speech.py:195 | different numbers render as different digit strings |
| Router.AnyKeyword | caroline_interactive_with_speech.py:104 | `any(word in text for word in keywords)` holds exactly when some keyword of the list occurs in the text |
| Router.Select | interactive_demo.py:46-79 | the if/elif chain over a lower-cased text, specified by `Router.SelectFirstHit` and `Router.SelectNoHit` |
| Router.Route | caroline_interactive_with_speech.py:101-128 | lower-case, then the chain; specified by `Router.RouteReplyIff` and `Router.RouteFallbackIff` |
| Router.SelectFirstHit | interactive_demo.py:46-75 | the chain returns the reply of the earliest category whose keywords hit the text |
| Router.SelectNoHit | interactive_demo.py:77-79 | the chain falls through to the default when no category is hit |
| Router.HitOrNot | interactive_demo.py:46-79 | every text either hits no category or has an earliest category it hits |
| Router.RouteFirstHit | caroline_interactive_with_speech.py:101-122 | the earliest category hit by the lower-cased question supplies the reply |
| Router.RouteNoHit | caroline_interactive_with_speech.py:124-128 | a question that hits no category gets the default reply |
| Router.RouteNoLaterThanHit | interactive_demo.py:46-75 | when category `i` is hit, the reply comes from category `i` or an earlier one, never from a later one or the default |
| Router.RouteReplyIff | caroline_interactive_with_speech.py:104-122 | with distinct replies, category `i`'s reply is returned if and only if `i` is the earliest category hit |
| Router.RouteFallbackIff | caroline_interactive_with_speech.py:124-128 | with distinct replies, the default is returned if and only if no category is hit |
| Router.RouteIgnoresCase | caroline_interactive_with_speech.py:101 | questions that differ only in letter case are routed alike |
| Router.RouteOfLowered | interactive_demo.py:43 | lower-casing the question beforehand changes nothing |
| Router.RouteEmpty | caroline_interactive_with_speech.py:124-128 | when no keyword is empty, the empty question gets the default |
| Router.MissedByMarks | interactive_demo.py:46 | a category is missed when each of its keywords holds a character that the text lacks |
| VoiceDemo.GetResponse | caroline_interactive_with_speech.py:99-128 | `get_response`; `VoiceDemo.GetResponseFirstMatch` and `VoiceDemo.GetResponseDefault` state which of its seven replies it gives |
| VoiceDemo.TableHasDistinctReplies | caroline_interactive_with_speech.py:104-128 | the seven branches of `get_response` return seven different replies |
| VoiceDemo.GetResponseIgnoresCase | caroline_interactive_with_speech.py:101 | `get_response` is case-insensitive |
| VoiceDemo.GetResponseOfLowered | caroline_interactive_with_speech.py:101 | `get_response` depends only on `user_input.lower()` |
| VoiceDemo.ResearchWins | caroline_interactive_with_speech.py:104-105 | a research keyword anywhere in the input gives the research reply, whatever other keywords occur |
| VoiceDemo.GetResponseFirstMatch | caroline_interactive_with_speech.py:104-122 | the reply of list `i` is returned if and only if list `i` is the first list with a member in the lower-cased input |
| VoiceDemo.GetResponseDefault | caroline_interactive_with_speech.py:124-128 | the default paragraph is returned if and only if none of the six lists has a member in the lower-cased input |
| VoiceDemo.EmptyInputGetsDefault | caroline_interactive_with_speech.py:124-128 | the empty input gets the default paragraph |
| VoiceDemo.AppendKeepsAnswers | caroline_interactive_with_speech.py:202-207 | appending an answered record to an answered history keeps every record answered |
| VoiceDemo.AudioNameInjective | caroline_interactive_with_speech.py:195 | `response_{n}.mp3` names differ for different history lengths |
| VoiceDemo.AudioName | caroline_interactive_with_speech.py:195 | the f-string `f"{prefix}_{n}.mp3"`; `VoiceDemo.AudioNameInjective` shows it determines `n` |
| VoiceDemo.DemoTurns | caroline_interactive_with_speech.py:257-272 | the records of the demo sequence: each question as asked, unstripped, its reply, no user audio, audio `demo_{length}.mp3`; `VoiceDemo.DemoTurnsAnswered` states their properties |
| VoiceDemo.DemoTurnsAnswered | caroline_interactive_with_speech.py:257-272 | each demo record keeps its question and the reply `get_response` gives it, and no two demo records share an audio file |
| VoiceDemo.CarolineVoiceDemo.constructor | caroline_interactive_with_speech.py:58 | a new demo starts with an empty history |
| VoiceDemo.CarolineVoiceDemo.TextInteraction | caroline_interactive_with_speech.py:184-209 | a blank line returns `None` and leaves the history as it was; otherwise exactly one record is appended (stripped input, its reply, audio named after the old length) and the pair is returned |
| VoiceDemo.CarolineVoiceDemo.VoiceInteraction | caroline_interactive_with_speech.py:148-182 | the stripped transcript is routed, and exactly one record with both audio files is appended, even for an empty transcript |
| VoiceDemo.CarolineVoiceDemo.DemoSequence | caroline_interactive_with_speech.py:249-274 | choice 3 appends exactly one record per question, in order, as `VoiceDemo.DemoTurns` describes, and keeps every record answered |
| VoiceDemo.CarolineVoiceDemo.SaveConversation | caroline_interactive_with_speech.py:211-218 | `total_interactions` is the history length; `session_start` is the first record's timestamp, or `None` for an empty history; the history is written as it is, and every record in it carries the reply `get_response` gives its user text |
| InteractiveDemo.RespondToQuestion | interactive_demo.py:41-79 | `respond_to_question`; `InteractiveDemo.RespondFirstMatch` and `InteractiveDemo.RespondDefault` state which of its nine answers it gives |
| InteractiveDemo.TableHasDistinctReplies | interactive_demo.py:46-79 | the nine branches of `respond_to_question` return nine different answers |
| InteractiveDemo.RespondIgnoresCase | interactive_demo.py:43 | `respond_to_question` is case-insensitive |
| InteractiveDemo.RespondOfLowered | interactive_demo.py:43 | `respond_to_question` depends only on `question.lower()` |
| InteractiveDemo.EducationWins | interactive_demo.py:46-47 | an education keyword anywhere in the question gives the education answer, whatever other keywords occur |
| InteractiveDemo.HealthcareIsNeverAi | interactive_demo.py:54-75 | a question containing `healthcare` gets the education, research or industry answer, never the AI one |
| InteractiveDemo.RespondFirstMatch | interactive_demo.py:46-75 | the answer of list `i` is returned if and only if list `i` is the first list with a member in the lower-cased question |
| InteractiveDemo.RespondDefault | interactive_demo.py:77-79 | the default answer is returned if and only if none of the eight lists has a member in the lower-cased question |
| InteractiveDemo.EmptyQuestionGetsDefault | interactive_demo.py:77-79 | the empty question gets the default answer |
| InteractiveDemo.IsQuit | interactive_demo.py:100 | the whole stripped line, lower-cased, is one of `quit`, `exit`, `bye`, `goodbye`; `InteractiveExamples.PaddedGoodByeQuits` and `InteractiveExamples.ByeNowIsRouted` show it |
| InteractiveDemo.LineEvent | interactive_demo.py:98-106 | one pass of the loop body: farewell on a quit word, re-prompt on a blank line, otherwise the routed answer; `InteractiveDemo.BlankLineReprompts` states the blank case |
| InteractiveDemo.Transcript | interactive_demo.py:96-111 | the events of a session, specified by `InteractiveDemo.TranscriptStopsAtFirstQuit`, `InteractiveDemo.TranscriptWithoutQuit` and `InteractiveDemo.SessionEndsIffQuit` |
| InteractiveDemo.RunLoop | interactive_demo.py:96-111 | the loop yields exactly the events of the lines up to and including the first farewell |
| InteractiveDemo.Chat | interactive_demo.py:96-111 | the chat session yields exactly `Transcript(lines)` |
| InteractiveDemo.UpToFirstFarewell | interactive_demo.py:100-102 | the events kept are those up to and including the first farewell |
| InteractiveDemo.UpToNoFarewell | interactive_demo.py:96-111 | with no farewell, every event is kept |
| InteractiveDemo.FarewellKept | interactive_demo.py:100-102 | the kept events hold a farewell exactly when the full events do |
| InteractiveDemo.TranscriptStopsAtFirstQuit | interactive_demo.py:98-102 | after the first quit line there are exactly that many events plus the farewell, and no later line is read |
| InteractiveDemo.TranscriptWithoutQuit | interactive_demo.py:96-111 | without a quit line, every line is handled and none says farewell |
| InteractiveDemo.SessionEndsIffQuit | interactive_demo.py:100-102 | the session says farewell if and only if some line is a quit word after strip and lower |
| InteractiveDemo.BlankLineReprompts | interactive_demo.py:104-106 | a whitespace-only line re-prompts: it is neither a quit nor a routed question |
| VoiceExamples.TellMeAboutYourResearchIsResearch | caroline_interactive_with_speech.py:252 | the first demo question, `"Tell me about your research"`, hits the background list through `about`, yet gets the research reply |
| VoiceExamples.ThisIsAGreeting | caroline_interactive_with_speech.py:119 | `hi` inside `this` makes `"this"` a greeting |
| InteractiveExamples.HealthcareAiIsIndustry | interactive_demo.py:54-74 | `"healthcare ai"` hits the AI list too, yet gets the industry answer |
| InteractiveExamples.ExplainIsAi | interactive_demo.py:74 | `ai` inside `explain` makes `"explain"` an AI question |
| InteractiveExamples.PaddedGoodByeQuits | interactive_demo.py:98-100 | `" GoodBye "` quits once stripped and lower-cased |
| InteractiveExamples.ByeNowIsRouted | interactive_demo.py:98-104 | `"bye now"` is neither a quit word nor blank, so the loop answers it with `respond_to_question` |
| TextExamples.PaddedGoodByeStripped | interactive_demo.py:98 | `" GoodBye "` strips to `"GoodBye"` |
| TextExamples.ByeNowStripped | interactive_demo.py:98 | `strip()` keeps the inner space of `"bye now"` |

## Left out

- Text.Lower: only the ASCII letters A-Z are folded. Python's `str.lower()` also folds non-ASCII capitals, and some of them become ASCII letters: U+0130 becomes `i` followed by U+0307, and U+212A (the Kelvin sign) becomes `k`. So `"Hİ"` is a greeting in the program but gets the default reply in the model.
- Text.Strip: its own contract states only that the result is no longer than its argument. What `strip()` keeps and removes is stated by `Text.StripSpec`, `Text.StripEmptyIff` and `Text.StripAroundWord`.
- The paragraph texts are left out. The model returns one constructor per branch. The knowledge-base entries (`knowledge_base`) and the greeting and default strings are constant text.
- `InteractiveCarolineAgent.knowledge` and `name` and `role` are left out: `respond_to_question` never reads them.
- Speech is left out: Whisper loading and transcription, gTTS synthesis, audio playback, microphone recording and the "Play ...? (y/n)" prompts. These are external libraries and devices. `VoiceInteraction` takes the transcript as a parameter, and the stripping done by `speech_to_text` is modelled. The model assumes these calls return normally. In the program, a failed recording (caroline_interactive_with_speech.py:156) or a failed synthesis (:167, :196, :263) raises before the record is appended, and `main` does not catch it.
- `datetime.now().isoformat()` is a parameter: `now`, or `stamps` for the demo sequence. The clock is outside the model.
- `save_conversation` writing JSON to a file is left out. `SaveConversation` returns the object it would write.
- The menu loop of `main` in caroline_interactive_with_speech.py is left out: reading the choice, the invalid-choice message and the "Press ENTER" pauses. Choices 1, 2 and 4 call the modelled `VoiceInteraction`, `TextInteraction` and `SaveConversation`. Choice 3 is modelled by `DemoSequence`, called with `DemoQuestions` and one clock reading per question.
- The banner and response printing in interactive_demo.py's `main` is left out.
- InteractiveDemo.Chat: the lines typed are a finite sequence, and the loop also ends when they run out. The program would then raise `EOFError` from `input()`.
- main.py, demo_main.py, setup.py and test_caroline_agent.py are not part of this model. main.py and test_caroline_agent.py build and test the CrewAI agents, demo_main.py is a mock agent with canned answers, and setup.py installs the dependencies with pip and tests the installation; as given it does not parse.
