/** Worked examples for caroline_interactive_with_speech.py: concrete inputs
    whose replies follow from the general lemmas of `VoiceDemo`. A category
    is shown missed by naming, for each of its keywords, one character of
    the keyword that the input lacks. */
module VoiceExamples {
  import opened Text
  import opened Router
  import opened VoiceDemo

  /** The first question of the demo sequence hits the background category
      through `about` as well as the research category, and gets the research
      reply: research comes first. */
  lemma TellMeAboutYourResearchIsResearch()
    ensures Hits(Table[4], Lower(DemoQuestions[0]))
    ensures GetResponse(DemoQuestions[0]) == Research
  {
    TellMeAboutYourResearchLowered();
    TellMeAboutYourResearchHitsBackground();
    TellMeAboutYourResearchHitsResearch();
    ResearchWins(DemoQuestions[0], "research");
  }

  lemma TellMeAboutYourResearchHitsBackground()
    ensures Hits(Table[4], "tell me about your research")
  {
    assert OccursAt("tell me about your research", "about", 8) by {
      assert "tell me about your research"[8..13] == "about";
    }
    assert Table[4].keywords[1] == "about";
  }

  lemma TellMeAboutYourResearchHitsResearch()
    ensures "research" in ResearchWords
    ensures Contains("tell me about your research", "research")
  {
    assert OccursAt("tell me about your research", "research", 19) by {
      assert "tell me about your research"[19..27] == "research";
    }
  }

  lemma TellMeAboutYourResearchLowered()
    ensures Lower(DemoQuestions[0]) == "tell me about your research"
  {
  }

  /** Substring, not whole-word, matching: `hi` inside `this` is a greeting. */
  lemma ThisIsAGreeting()
    ensures GetResponse("this") == Greeting
  {
    ThisFirstHitsGreeting();
    RouteFirstHit(Table, Fallback, "this", 5);
  }

  lemma ThisFirstHitsGreeting()
    ensures FirstHit(Table, Lower("this"), 5)
  {
    assert Lower("this") == "this";
    assert Hits(Table[5], "this") by {
      assert OccursAt("this", "hi", 1) by {
        assert "this"[1..3] == "hi";
      }
      assert Table[5].keywords[1] == "hi";
    }
    forall j | 0 <= j < 5 ensures !Hits(Table[j], "this") {
      if j == 0 {
        ThisMissesResearch();
      } else if j == 1 {
        ThisMissesTencent();
      } else if j == 2 {
        ThisMissesSkills();
      } else if j == 3 {
        ThisMissesLeadership();
      } else {
        ThisMissesBackground();
      }
    }
  }

  lemma ThisMissesResearch()
    ensures !Hits(Table[0], "this")
  {
    MissedByMarks(Table[0], "this", [0, 2, 0, 0]);
  }

  lemma ThisMissesTencent()
    ensures !Hits(Table[1], "this")
  {
    MissedByMarks(Table[1], "this", [1, 1, 1, 1]);
  }

  lemma ThisMissesSkills()
    ensures !Hits(Table[2], "this")
  {
    MissedByMarks(Table[2], "this", [1, 1, 0, 0]);
  }

  lemma ThisMissesLeadership()
    ensures !Hits(Table[3], "this")
  {
    MissedByMarks(Table[3], "this", [0, 0, 0, 1]);
  }

  lemma ThisMissesBackground()
    ensures !Hits(Table[4], "this")
  {
    MissedByMarks(Table[4], "this", [0, 0, 0, 1, 0]);
  }
}
